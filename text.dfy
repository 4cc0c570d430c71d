/** The string operations the ddcutil wrapper relies on, with Python's meaning. */
module Text {

  predicate IsUpper(c: char) { 'A' <= c <= 'Z' }

  /** str.lower() on one character (ASCII letters only). */
  function LowerChar(c: char): char
  {
    if IsUpper(c) then (c as int + 32) as char else c
  }

  /** str.lower(). */
  function Lower(s: string): (r: string)
    ensures |r| == |s|
  {
    if s == [] then [] else [LowerChar(s[0])] + Lower(s[1..])
  }

  /** No upper-case letter in s. */
  predicate IsLower(s: string)
  {
    forall i :: 0 <= i < |s| ==> !IsUpper(s[i])
  }

  lemma {:induction false} LowerIsLower(s: string)
    ensures IsLower(Lower(s))
  {
    if s != [] {
      LowerIsLower(s[1..]);
      var r := Lower(s);
      assert r[1..] == Lower(s[1..]);
      forall i | 1 <= i < |r| ensures !IsUpper(r[i]) {
        assert r[i] == r[1..][i - 1];
      }
    }
  }

  /** Lower-casing changes nothing in a string that is already lower-case. */
  lemma {:induction false} LowerOfLower(s: string)
    requires IsLower(s)
    ensures Lower(s) == s
  {
    if s != [] {
      assert IsLower(s[1..]) by {
        forall i | 0 <= i < |s[1..]| ensures !IsUpper(s[1..][i]) {
          assert s[1..][i] == s[i + 1];
        }
      }
      LowerOfLower(s[1..]);
    }
  }

  lemma {:induction false} LowerConcat(a: string, b: string)
    ensures Lower(a + b) == Lower(a) + Lower(b)
  {
    if a == [] {
      assert a + b == b;
    } else {
      assert (a + b)[0] == a[0] && (a + b)[1..] == a[1..] + b;
      LowerConcat(a[1..], b);
    }
  }

  /** Python's `needle in hay` on strings. */
  function Contains(hay: string, needle: string): bool
    decreases |hay|
  {
    (|needle| <= |hay| && hay[..|needle|] == needle) ||
    (hay != [] && Contains(hay[1..], needle))
  }

  /** The needle occurs in hay at offset k. */
  predicate OccursAt(hay: string, needle: string, k: nat)
  {
    k + |needle| <= |hay| && hay[k..k + |needle|] == needle
  }

  /** An occurrence at any offset makes Contains hold. */
  lemma {:induction false} ContainsAt(hay: string, needle: string, k: nat)
    requires OccursAt(hay, needle, k)
    ensures Contains(hay, needle)
    decreases k
  {
    if k > 0 {
      assert hay[1..][k - 1..k - 1 + |needle|] == hay[k..k + |needle|];
      ContainsAt(hay[1..], needle, k - 1);
    }
  }

  /** Contains holds only when the needle occurs at some offset. */
  lemma {:induction false} ContainsOnlyAt(hay: string, needle: string)
    requires Contains(hay, needle)
    ensures exists k: nat :: OccursAt(hay, needle, k)
    decreases |hay|
  {
    if |needle| <= |hay| && hay[..|needle|] == needle {
      assert hay[0..0 + |needle|] == needle;
      assert OccursAt(hay, needle, 0);
    } else {
      ContainsOnlyAt(hay[1..], needle);
      var k: nat :| OccursAt(hay[1..], needle, k);
      assert hay[k + 1..k + 1 + |needle|] == hay[1..][k..k + |needle|];
      assert OccursAt(hay, needle, k + 1);
    }
  }

  /** str.split(sep) for a one-character separator: never empty, and no part holds sep. */
  function Split(s: string, sep: char): (parts: seq<string>)
    ensures |parts| >= 1
    ensures forall k :: 0 <= k < |parts| ==> sep !in parts[k]
  {
    if s == [] then [""]
    else if s[0] == sep then [""] + Split(s[1..], sep)
    else
      var t := Split(s[1..], sep);
      [[s[0]] + t[0]] + t[1..]
  }

  /** sep.join(parts). */
  function Join(parts: seq<string>, sep: string): string
  {
    if parts == [] then ""
    else if |parts| == 1 then parts[0]
    else parts[0] + sep + Join(parts[1..], sep)
  }

  lemma JoinConsHead(x: char, t: seq<string>, sep: string)
    requires |t| >= 1
    ensures Join([[x] + t[0]] + t[1..], sep) == [x] + Join(t, sep)
  {
    var p := [[x] + t[0]] + t[1..];
    assert p[1..] == t[1..];
  }

  /** Joining the parts of a split with the separator gives back the string. */
  lemma {:induction false} SplitJoin(s: string, sep: char)
    ensures Join(Split(s, sep), [sep]) == s
  {
    if s != [] {
      SplitJoin(s[1..], sep);
      var t := Split(s[1..], sep);
      if s[0] == sep {
        var p := [""] + t;
        assert p[1..] == t;
        assert Join(p, [sep]) == "" + [sep] + Join(t, [sep]);
        assert s == [sep] + s[1..];
      } else {
        JoinConsHead(s[0], t, [sep]);
        assert s == [s[0]] + s[1..];
      }
    }
  }
}
