/**
 * String operations over `seq<char>`. The wake-up script itself only calls
 * Python's `str.split(sep)` with an explicit one-character separator. The
 * join `sep.join(fields)` and ASCII lower-casing are not used by the script;
 * they are here to state that splitting round-trips and that hexadecimal
 * digits are read case-insensitively.
 */
module Text {

  /** Number of occurrences of `c` in `s`. */
  function Count(s: string, c: char): nat
  {
    if s == [] then 0 else (if s[0] == c then 1 else 0) + Count(s[1..], c)
  }

  /** A character that does not occur is counted zero times. */
  lemma {:induction false} CountAbsent(s: string, c: char)
    requires c !in s
    ensures Count(s, c) == 0
  {
    if s != [] {
      assert s[0] in s;
      assert forall d :: d in s[1..] ==> d in s;
      CountAbsent(s[1..], c);
    }
  }

  /**
   * Python's `s.split(sep)`: there is always at least one field, one more
   * than there are separators, and no field contains the separator.
   * Adjacent separators give empty fields, as in `"a::b".split(':')`.
   */
  function Split(s: string, sep: char): (fields: seq<string>)
    ensures |fields| == Count(s, sep) + 1
    ensures forall k :: 0 <= k < |fields| ==> sep !in fields[k]
    decreases |s|
  {
    if s == [] then [[]]
    else
      var rest := Split(s[1..], sep);
      if s[0] == sep then [[]] + rest
      else [[s[0]] + rest[0]] + rest[1..]
  }

  /** Python's `sep.join(fields)` for a non-empty list of fields. */
  function Join(fields: seq<string>, sep: char): string
    requires |fields| > 0
  {
    if |fields| == 1 then fields[0] else fields[0] + [sep] + Join(fields[1..], sep)
  }

  /** Joining the fields of a split gives back the original string. */
  lemma {:induction false} JoinSplit(s: string, sep: char)
    ensures Join(Split(s, sep), sep) == s
    decreases |s|
  {
    if s != [] {
      JoinSplit(s[1..], sep);
      var rest := Split(s[1..], sep);
      if s[0] == sep {
        assert Split(s, sep)[1..] == rest;
      } else {
        if |rest| == 1 {
          assert Join(Split(s, sep), sep) == [s[0]] + rest[0];
        } else {
          assert Split(s, sep)[1..] == rest[1..];
          assert Join(rest, sep) == rest[0] + [sep] + Join(rest[1..], sep);
        }
      }
    }
  }

  /** Splitting a join of separator-free fields gives back the fields. */
  lemma {:induction false} SplitJoin(fields: seq<string>, sep: char)
    requires |fields| > 0
    requires forall k :: 0 <= k < |fields| ==> sep !in fields[k]
    ensures Split(Join(fields, sep), sep) == fields
    decreases |fields|, |fields[0]|
  {
    if |fields| == 1 {
      SplitField(fields[0], sep);
    } else {
      var f := fields[0];
      var tail := Join(fields[1..], sep);
      if f == [] {
        assert Join(fields, sep) == [sep] + tail;
        assert ([sep] + tail)[1..] == tail;
        SplitJoin(fields[1..], sep);
        assert [[]] + fields[1..] == fields;
      } else {
        var shorter := [f[1..]] + fields[1..];
        assert shorter[1..] == fields[1..];
        assert Join(shorter, sep) == f[1..] + [sep] + tail;
        assert Join(fields, sep) == [f[0]] + Join(shorter, sep);
        assert (forall k :: 0 <= k < |shorter| ==> sep !in shorter[k]) by {
          assert sep !in f;
          assert forall k :: 1 <= k < |shorter| ==> shorter[k] == fields[k];
        }
        SplitJoin(shorter, sep);
        assert ([f[0]] + Join(shorter, sep))[1..] == Join(shorter, sep);
        assert f[0] != sep by { assert f[0] in f; }
        assert [f[0]] + shorter[0] == f;
        assert [[f[0]] + shorter[0]] + shorter[1..] == fields;
      }
    }
  }

  /** A string without the separator splits into itself alone. */
  lemma {:induction false} SplitField(f: string, sep: char)
    requires sep !in f
    ensures Split(f, sep) == [f]
    decreases |f|
  {
    if f != [] {
      assert f[0] in f;
      assert sep !in f[1..] by { assert forall c :: c in f[1..] ==> c in f; }
      SplitField(f[1..], sep);
      assert [f[0]] + f[1..] == f;
    }
  }

  /** Lower-cases one ASCII letter and leaves every other character alone. */
  function LowerChar(c: char): (d: char)
    ensures 'A' <= c <= 'Z' ==> d as int == c as int + 32
    ensures !('A' <= c <= 'Z') ==> d == c
  {
    if 'A' <= c <= 'Z' then (c as int + 32) as char else c
  }

  /** ASCII lower-casing of a whole string, character by character. */
  function Lower(s: string): (t: string)
    ensures |t| == |s|
    ensures forall i :: 0 <= i < |s| ==> t[i] == LowerChar(s[i])
  {
    if s == [] then [] else [LowerChar(s[0])] + Lower(s[1..])
  }

  /**
   * Lower-casing does not move separators that are not letters, so splitting
   * commutes with it: each field of the lowered string is the lowered field.
   */
  lemma {:induction false} SplitLower(s: string, sep: char)
    requires !('A' <= sep <= 'Z') && !('a' <= sep <= 'z')
    ensures |Split(Lower(s), sep)| == |Split(s, sep)|
    ensures forall k :: 0 <= k < |Split(s, sep)| ==> Split(Lower(s), sep)[k] == Lower(Split(s, sep)[k])
    decreases |s|
  {
    if s != [] {
      SplitLower(s[1..], sep);
      var c := LowerChar(s[0]);
      assert Lower(s) == [c] + Lower(s[1..]);
      assert ([c] + Lower(s[1..]))[1..] == Lower(s[1..]);
      assert (c == sep) == (s[0] == sep);
      if s[0] == sep {
        SplitLowerAtSep(s, sep, Split(s[1..], sep), Split(Lower(s[1..]), sep));
      } else {
        SplitLowerInField(s, sep, Split(s[1..], sep), Split(Lower(s[1..]), sep));
      }
    }
  }

  /** One step of `SplitLower` when the first character is the separator: it starts a new field. */
  lemma SplitLowerAtSep(s: string, sep: char, rest: seq<string>, lrest: seq<string>)
    requires s != [] && s[0] == sep && |Lower(s)| > 0 && Lower(s)[0] == sep
    requires rest == Split(s[1..], sep) && lrest == Split(Lower(s)[1..], sep)
    requires |lrest| == |rest| && forall k :: 0 <= k < |rest| ==> lrest[k] == Lower(rest[k])
    ensures |Split(Lower(s), sep)| == |Split(s, sep)|
    ensures forall k :: 0 <= k < |Split(s, sep)| ==> Split(Lower(s), sep)[k] == Lower(Split(s, sep)[k])
  {
    var fields, lfields := [[]] + rest, [[]] + lrest;
    assert Split(s, sep) == fields && Split(Lower(s), sep) == lfields;
    forall k | 0 <= k < |fields| ensures lfields[k] == Lower(fields[k]) {
      if k > 0 {
        assert fields[k] == rest[k - 1] && lfields[k] == lrest[k - 1];
      }
    }
  }

  /** One step of `SplitLower` when the first character is not the separator: it joins the first field. */
  lemma SplitLowerInField(s: string, sep: char, rest: seq<string>, lrest: seq<string>)
    requires s != [] && s[0] != sep && |Lower(s)| > 0 && Lower(s)[0] == LowerChar(s[0]) && LowerChar(s[0]) != sep
    requires rest == Split(s[1..], sep) && lrest == Split(Lower(s)[1..], sep)
    requires |lrest| == |rest| && forall k :: 0 <= k < |rest| ==> lrest[k] == Lower(rest[k])
    ensures |Split(Lower(s), sep)| == |Split(s, sep)|
    ensures forall k :: 0 <= k < |Split(s, sep)| ==> Split(Lower(s), sep)[k] == Lower(Split(s, sep)[k])
  {
    var first := [s[0]] + rest[0];
    var fields, lfields := [first] + rest[1..], [[LowerChar(s[0])] + lrest[0]] + lrest[1..];
    assert Split(s, sep) == fields && Split(Lower(s), sep) == lfields;
    assert first[0] == s[0] && first[1..] == rest[0];
    assert lfields[0] == Lower(first);
    forall k | 1 <= k < |fields| ensures lfields[k] == Lower(fields[k]) {
      assert fields[k] == rest[k] && lfields[k] == lrest[k];
    }
  }
}
