/**
 * The string operations the browser relies on, modelled on Python's `str`
 * methods: ASCII lower-casing and capitalising, substring containment,
 * `join`, `split`, `strip`, newline replacement and code-point order.
 */
module Text {

  // ---------------------------------------------------------------- case

  /** `c.lower()` for an ASCII letter; every other character is unchanged. */
  function LowerChar(c: char): char {
    if 'A' <= c <= 'Z' then (c as int + 32) as char else c
  }

  /** `c.upper()` for an ASCII letter; every other character is unchanged. */
  function UpperChar(c: char): char {
    if 'a' <= c <= 'z' then (c as int - 32) as char else c
  }

  /** `s.lower()`, ASCII only. */
  function Lower(s: string): string {
    seq(|s|, i requires 0 <= i < |s| => LowerChar(s[i]))
  }

  /** `s.capitalize()`: first character upper case, the rest lower case. */
  function Capitalize(s: string): string {
    if s == [] then [] else [UpperChar(s[0])] + Lower(s[1..])
  }

  /** Lower-casing is idempotent. */
  lemma LowerIdempotent(s: string)
    ensures Lower(Lower(s)) == Lower(s)
  {
  }

  /** `[w.lower() for w in ws]` */
  function LowerAll(ws: seq<string>): seq<string> {
    seq(|ws|, k requires 0 <= k < |ws| => Lower(ws[k]))
  }

  lemma LowerConcat(a: string, b: string)
    ensures Lower(a + b) == Lower(a) + Lower(b)
  {
    assert forall i :: 0 <= i < |a + b| ==> Lower(a + b)[i] == (Lower(a) + Lower(b))[i];
  }

  /** Lower-casing a joined text lower-cases each piece and the separator. */
  lemma {:induction false} LowerJoin(ws: seq<string>, sep: string)
    ensures Lower(Join(ws, sep)) == Join(LowerAll(ws), Lower(sep))
    decreases |ws|
  {
    if |ws| > 1 {
      LowerJoin(ws[1..], sep);
      LowerConcat(ws[0] + sep, Join(ws[1..], sep));
      LowerConcat(ws[0], sep);
      assert LowerAll(ws)[1..] == LowerAll(ws[1..]);
    }
  }

  /** Capitalising changes only the case of a string: both lower-case to the same text. */
  lemma {:induction false} CapitalizeKeepsLetters(s: string)
    ensures |Capitalize(s)| == |s|
    ensures Lower(Capitalize(s)) == Lower(s)
  {
    if s != [] {
      var r := Capitalize(s);
      assert r == [UpperChar(s[0])] + Lower(s[1..]);
      forall i | 0 <= i < |s|
        ensures Lower(r)[i] == Lower(s)[i]
      {
        if i > 0 {
          assert r[i] == Lower(s[1..])[i - 1] == LowerChar(s[i]);
        }
      }
    }
  }

  // ---------------------------------------------------------------- substrings

  /** `s.startswith(t)` */
  predicate IsPrefix(t: string, s: string) {
    |t| <= |s| && s[..|t|] == t
  }

  /** `t` occurs in `s` starting at position `i`. */
  predicate OccursAt(s: string, t: string, i: int) {
    0 <= i && i + |t| <= |s| && s[i..i + |t|] == t
  }

  /** The characters `t[k..]` equal `s[i + k..i + |t|]`, compared one by one. */
  predicate MatchesFrom(s: string, t: string, i: nat, k: nat)
    requires i + |t| <= |s| && k <= |t|
    decreases |t| - k
  {
    k == |t| || (s[i + k] == t[k] && MatchesFrom(s, t, i, k + 1))
  }

  /** `t` occurs in `s` at position `i` or later: a naive left-to-right search. */
  predicate ContainsFrom(s: string, t: string, i: nat)
    decreases |s| - i
  {
    i + |t| <= |s| && (MatchesFrom(s, t, i, 0) || ContainsFrom(s, t, i + 1))
  }

  /** `t in s`: Python's substring test. */
  predicate Contains(s: string, t: string) {
    ContainsFrom(s, t, 0)
  }

  lemma {:induction false} MatchesFromIff(s: string, t: string, i: nat, k: nat)
    requires i + |t| <= |s| && k <= |t|
    ensures MatchesFrom(s, t, i, k) <==> s[i + k..i + |t|] == t[k..]
    decreases |t| - k
  {
    if k < |t| {
      MatchesFromIff(s, t, i, k + 1);
      assert s[i + k..i + |t|] == [s[i + k]] + s[i + k + 1..i + |t|];
      assert t[k..] == [t[k]] + t[k + 1..];
    }
  }

  lemma {:induction false} ContainsFromIff(s: string, t: string, i: nat)
    ensures ContainsFrom(s, t, i) <==> exists j :: i <= j && OccursAt(s, t, j)
    decreases |s| - i
  {
    if i + |t| <= |s| {
      MatchesFromIff(s, t, i, 0);
      ContainsFromIff(s, t, i + 1);
      if OccursAt(s, t, i) {
        assert MatchesFrom(s, t, i, 0);
      }
      forall j | i <= j && OccursAt(s, t, j)
        ensures ContainsFrom(s, t, i)
      {
        if j > i {
          assert ContainsFrom(s, t, i + 1);
        }
      }
    }
  }

  /** The search agrees with "occurs at some position". */
  lemma ContainsIffOccurs(s: string, t: string)
    ensures Contains(s, t) <==> exists i :: OccursAt(s, t, i)
  {
    ContainsFromIff(s, t, 0);
  }

  /** An occurrence of `t` in `a + [c] + b` lies within `a`, lies within `b`, or covers the separator `c`. */
  lemma OccursAcrossSeparator(a: string, c: char, b: string, t: string, i: int)
    requires OccursAt(a + [c] + b, t, i)
    ensures OccursAt(a, t, i) || OccursAt(b, t, i - |a| - 1) || c in t
  {
    var s := a + [c] + b;
    if i + |t| <= |a| {
      assert s[i..i + |t|] == a[i..i + |t|];
    } else if i > |a| {
      assert s[i..i + |t|] == b[i - |a| - 1..i - |a| - 1 + |t|];
    } else {
      assert s[i..i + |t|][|a| - i] == s[|a|] == c;
    }
  }

  /** A substring that avoids the separator, found in a joined text, is found in one of the pieces. */
  lemma {:induction false} ContainsInJoin(parts: seq<string>, c: char, t: string)
    requires |parts| > 0 && c !in t && Contains(Join(parts, [c]), t)
    ensures exists k :: 0 <= k < |parts| && Contains(parts[k], t)
    decreases |parts|
  {
    ContainsIffOccurs(Join(parts, [c]), t);
    if |parts| == 1 {
      assert Contains(parts[0], t);
    } else {
      var rest := Join(parts[1..], [c]);
      var i :| OccursAt(parts[0] + [c] + rest, t, i);
      OccursAcrossSeparator(parts[0], c, rest, t, i);
      if OccursAt(parts[0], t, i) {
        ContainsIffOccurs(parts[0], t);
      } else {
        ContainsIffOccurs(rest, t);
        ContainsInJoin(parts[1..], c, t);
        var k :| 0 <= k < |parts[1..]| && Contains(parts[1..][k], t);
        assert Contains(parts[k + 1], t);
      }
    }
  }

  /** A substring of a piece is a substring of the joined text. */
  lemma {:induction false} ContainsPieceOfJoin(parts: seq<string>, sep: string, k: nat, t: string)
    requires k < |parts| && Contains(parts[k], t)
    ensures Contains(Join(parts, sep), t)
    decreases |parts|
  {
    ContainsIffOccurs(parts[k], t);
    var i :| OccursAt(parts[k], t, i);
    if |parts| > 1 {
      var rest := Join(parts[1..], sep);
      assert Join(parts, sep) == parts[0] + (sep + rest);
      if k == 0 {
        assert OccursAt(parts[0] + (sep + rest), t, i);
      } else {
        ContainsPieceOfJoin(parts[1..], sep, k - 1, t);
        ContainsIffOccurs(rest, t);
        var j :| OccursAt(rest, t, j);
        var s := parts[0] + (sep + rest);
        assert s[|parts[0]| + |sep| + j..|parts[0]| + |sep| + j + |t|] == rest[j..j + |t|];
        assert OccursAt(s, t, |parts[0]| + |sep| + j);
      }
    }
    ContainsIffOccurs(Join(parts, sep), t);
  }

  /** Every character of a substring is a character of the text. */
  lemma ContainsOnlyItsCharacters(s: string, t: string, c: char)
    requires Contains(s, t) && c in t
    ensures c in s
  {
    ContainsIffOccurs(s, t);
    var i :| OccursAt(s, t, i);
    var k :| 0 <= k < |t| && t[k] == c;
    assert s[i + k] == c;
  }

  /** Every string contains the empty string; no non-empty string occurs in "". */
  lemma ContainsEdgeCases(s: string, t: string)
    ensures Contains(s, "")
    ensures |t| > 0 ==> !Contains("", t)
  {
  }

  // ---------------------------------------------------------------- join and split

  /** `sep.join(parts)` */
  function Join(parts: seq<string>, sep: string): string {
    if |parts| == 0 then ""
    else if |parts| == 1 then parts[0]
    else parts[0] + sep + Join(parts[1..], sep)
  }

  /** `s.split(d)` for a one-character separator: the pieces between the separators. */
  function Split(s: string, d: char): (r: seq<string>)
    ensures |r| >= 1
    ensures forall k :: 0 <= k < |r| ==> d !in r[k]
    decreases |s|
  {
    if |s| == 0 then [""]
    else
      var rest := Split(s[1..], d);
      if s[0] == d then [""] + rest else [[s[0]] + rest[0]] + rest[1..]
  }

  /** Rejoining the pieces of a split gives back the original text. */
  lemma {:induction false} JoinSplit(s: string, d: char)
    ensures Join(Split(s, d), [d]) == s
    decreases |s|
  {
    if |s| > 0 {
      var rest := Split(s[1..], d);
      JoinSplit(s[1..], d);
      if s[0] == d {
        assert Split(s, d) == [""] + rest;
        assert ([""] + rest)[1..] == rest;
        assert Join([""] + rest, [d]) == "" + [d] + Join(rest, [d]);
        assert [d] + s[1..] == s;
      } else {
        var r := Split(s, d);
        assert r == [[s[0]] + rest[0]] + rest[1..];
        if |rest| == 1 {
          assert Join(r, [d]) == [s[0]] + rest[0] == [s[0]] + Join(rest, [d]);
        } else {
          assert r[1..] == rest[1..];
          assert Join(rest, [d]) == rest[0] + [d] + Join(rest[1..], [d]);
          assert Join(r, [d]) == ([s[0]] + rest[0]) + [d] + Join(rest[1..], [d]);
        }
        assert [s[0]] + s[1..] == s;
      }
    }
  }

  /** A text without the separator splits into itself alone. */
  lemma {:induction false} SplitNoSeparator(x: string, d: char)
    requires d !in x
    ensures Split(x, d) == [x]
    decreases |x|
  {
    if |x| > 0 {
      assert d !in x[1..];
      SplitNoSeparator(x[1..], d);
      assert [x[0]] + x[1..] == x;
    }
  }

  /** Splitting `x + d + y`, where `x` holds no separator, yields `x` followed by the pieces of `y`. */
  lemma {:induction false} SplitAfterPiece(x: string, y: string, d: char)
    requires d !in x
    ensures Split(x + [d] + y, d) == [x] + Split(y, d)
    decreases |x|
  {
    var s := x + [d] + y;
    if |x| == 0 {
      assert s[0] == d && s[1..] == y;
    } else {
      assert s[0] == x[0] && s[1..] == x[1..] + [d] + y;
      assert d !in x[1..];
      SplitAfterPiece(x[1..], y, d);
      assert [x[0]] + x[1..] == x;
    }
  }

  /** Splitting a join of separator-free pieces gives back the pieces: the line count is preserved. */
  lemma {:induction false} SplitJoin(parts: seq<string>, d: char)
    requires |parts| >= 1
    requires forall k :: 0 <= k < |parts| ==> d !in parts[k]
    ensures Split(Join(parts, [d]), d) == parts
    decreases |parts|
  {
    if |parts| == 1 {
      SplitNoSeparator(parts[0], d);
    } else {
      SplitJoin(parts[1..], d);
      SplitAfterPiece(parts[0], Join(parts[1..], [d]), d);
      assert [parts[0]] + parts[1..] == parts;
    }
  }

  // ---------------------------------------------------------------- whitespace

  /** Python's `str.isspace` for one character: the characters `strip()` removes. */
  predicate IsSpace(c: char) {
    var n := c as int;
    n == 0x20 || 0x09 <= n <= 0x0D || 0x1C <= n <= 0x1F || n == 0x85 || n == 0xA0
    || n == 0x1680 || 0x2000 <= n <= 0x200A || n == 0x2028 || n == 0x2029
    || n == 0x202F || n == 0x205F || n == 0x3000
  }

  /** `s.lstrip()`: the suffix left after dropping the leading whitespace. */
  function StripLeft(s: string): (r: string)
    ensures |r| <= |s| && r == s[|s| - |r|..]
    ensures |r| > 0 ==> !IsSpace(r[0])
    ensures forall i :: 0 <= i < |s| - |r| ==> IsSpace(s[i])
    decreases |s|
  {
    if |s| > 0 && IsSpace(s[0]) then StripLeft(s[1..]) else s
  }

  /** `s.rstrip()`: the prefix left after dropping the trailing whitespace. */
  function StripRight(s: string): (r: string)
    ensures |r| <= |s| && r == s[..|r|]
    ensures |r| > 0 ==> !IsSpace(r[|r| - 1])
    ensures forall i :: |r| <= i < |s| ==> IsSpace(s[i])
    decreases |s|
  {
    if |s| > 0 && IsSpace(s[|s| - 1]) then StripRight(s[..|s| - 1]) else s
  }

  /**
   * `s.strip()`: the slice of `s` left once the whitespace at both ends is
   * dropped; it neither starts nor ends with whitespace.
   */
  function Strip(s: string): (r: string)
    ensures |r| > 0 ==> !IsSpace(r[0]) && !IsSpace(r[|r| - 1])
    ensures exists a, b :: 0 <= a <= b <= |s| && r == s[a..b] && StripsTo(s, a, b)
    ensures forall c :: c in r ==> c in s
  {
    var l := StripLeft(s);
    var r := StripRight(l);
    StripFacts(s, l, r);
    r
  }

  /** What `StripLeft` and `StripRight` promise, put together: the facts `Strip` states. */
  lemma StripFacts(s: string, l: string, r: string)
    requires |l| <= |s| && l == s[|s| - |l|..] && forall i :: 0 <= i < |s| - |l| ==> IsSpace(s[i])
    requires |l| > 0 ==> !IsSpace(l[0])
    requires |r| <= |l| && r == l[..|r|] && forall i :: |r| <= i < |l| ==> IsSpace(l[i])
    requires |r| > 0 ==> !IsSpace(r[|r| - 1])
    ensures |r| > 0 ==> !IsSpace(r[0]) && !IsSpace(r[|r| - 1])
    ensures exists a, b :: 0 <= a <= b <= |s| && r == s[a..b] && StripsTo(s, a, b)
    ensures forall c :: c in r ==> c in s
  {
    StripLeftRight(s, l, r);
    var a := |s| - |l|;
    var b := a + |r|;
    assert 0 <= a <= b <= |s| && r == s[a..b] && StripsTo(s, a, b);
    if |r| > 0 {
      assert r[0] == l[0];
    }
    assert forall c :: c in r ==> c in l;
    assert forall c :: c in l ==> c in s;
  }

  /**
   * A suffix `l` of `s` after leading whitespace, cut to a prefix `r` before
   * trailing whitespace, is a slice of `s` with only whitespace outside it.
   */
  lemma StripLeftRight(s: string, l: string, r: string)
    requires |l| <= |s| && l == s[|s| - |l|..] && forall i :: 0 <= i < |s| - |l| ==> IsSpace(s[i])
    requires |r| <= |l| && r == l[..|r|] && forall i :: |r| <= i < |l| ==> IsSpace(l[i])
    ensures |s| - |l| + |r| <= |s| && r == s[|s| - |l|..|s| - |l| + |r|]
    ensures StripsTo(s, |s| - |l|, |s| - |l| + |r|)
  {
    var a := |s| - |l|;
    assert r == s[a..a + |r|];
    forall k | a + |r| <= k < |s|
      ensures IsSpace(s[k])
    {
      assert s[k] == l[k - a];
    }
  }

  /** Everything of `s` before `a` and from `b` on is whitespace. */
  predicate StripsTo(s: string, a: nat, b: nat)
    requires a <= b <= |s|
  {
    (forall k :: 0 <= k < a ==> IsSpace(s[k])) && (forall k :: b <= k < |s| ==> IsSpace(s[k]))
  }

  /**
   * `strip()` is the only such slice: a slice of `s` that has whitespace
   * only outside it and does not start or end with whitespace is `Strip(s)`.
   */
  lemma StripUnique(s: string, a: nat, b: nat)
    requires a <= b <= |s| && StripsTo(s, a, b)
    requires a < b ==> !IsSpace(s[a]) && !IsSpace(s[b - 1])
    ensures Strip(s) == s[a..b]
  {
    var a', b' := StripBounds(s);
    if a' < b' {
      InsideStrip(s, a, b, a');
      InsideStrip(s, a, b, b' - 1);
      InsideStrip(s, a', b', a);
      InsideStrip(s, a', b', b - 1);
      assert a' == a && b' == b;
    } else if a < b {
      InsideStrip(s, a', b', a);
      assert false;
    } else {
      assert |s[a'..b']| == 0 && |s[a..b]| == 0;
    }
  }

  /** A character that is not whitespace lies inside the slice `strip()` could keep. */
  lemma InsideStrip(s: string, a: nat, b: nat, k: nat)
    requires a <= b <= |s| && StripsTo(s, a, b)
    requires k < |s| && !IsSpace(s[k])
    ensures a <= k < b
  {
  }

  /** Where the slice that `strip()` keeps starts and ends. */
  lemma StripBounds(s: string) returns (a: nat, b: nat)
    ensures a <= b <= |s| && Strip(s) == s[a..b] && StripsTo(s, a, b)
    ensures a < b ==> !IsSpace(s[a]) && !IsSpace(s[b - 1])
  {
    var r := Strip(s);
    a, b :| 0 <= a <= b <= |s| && r == s[a..b] && StripsTo(s, a, b);
    if a < b {
      SliceEnds(s, a, b);
    }
  }

  /** The first and last characters of a non-empty slice. */
  lemma SliceEnds(s: string, a: nat, b: nat)
    requires a < b <= |s|
    ensures s[a..b][0] == s[a] && s[a..b][b - a - 1] == s[b - 1]
  {
  }

  /** Whitespace after position `b` does not change what `strip()` keeps. */
  lemma StripTrailingSpace(s: string, b: nat)
    requires b <= |s| && forall k :: b <= k < |s| ==> IsSpace(s[k])
    ensures Strip(s[..b]) == Strip(s)
  {
    var a', b' := StripBounds(s[..b]);
    StripsToExtends(s, b, a', b');
    PrefixSlice(s, b, a', b');
    StripUnique(s, a', b');
  }

  /** A slice of `s[..b]` is the same slice of `s`. */
  lemma PrefixSlice(s: string, b: nat, a': nat, b': nat)
    requires a' <= b' <= b <= |s|
    ensures s[..b][a'..b'] == s[a'..b']
    ensures a' < b' ==> s[..b][a'] == s[a'] && s[..b][b' - 1] == s[b' - 1]
  {
  }

  /** Whitespace outside a slice of `s[..b]`, followed by whitespace after `b`, is whitespace outside that slice of `s`. */
  lemma StripsToExtends(s: string, b: nat, a': nat, b': nat)
    requires a' <= b' <= b <= |s| && forall k :: b <= k < |s| ==> IsSpace(s[k])
    requires StripsTo(s[..b], a', b')
    ensures StripsTo(s, a', b')
  {
    var t := s[..b];
    forall k | 0 <= k < a'
      ensures IsSpace(s[k])
    {
      assert s[k] == t[k];
    }
    forall k | b' <= k < |s|
      ensures IsSpace(s[k])
    {
      if k < b {
        assert s[k] == t[k];
      }
    }
  }

  // ---------------------------------------------------------------- newlines

  /** `s.replace('\n', ' ')`: each newline becomes exactly one space. */
  function ReplaceNewlines(s: string): (r: string)
    ensures |r| == |s|
    ensures forall i :: 0 <= i < |s| ==> r[i] == if s[i] == '\n' then ' ' else s[i]
    ensures '\n' !in r
  {
    if s == [] then [] else [if s[0] == '\n' then ' ' else s[0]] + ReplaceNewlines(s[1..])
  }

  // ---------------------------------------------------------------- order

  /** `a <= b` on Python strings: lexicographic by code point, a proper prefix first. */
  predicate Le(a: string, b: string)
    decreases |a|
  {
    |a| == 0 || (|b| > 0 && (a[0] < b[0] || (a[0] == b[0] && Le(a[1..], b[1..]))))
  }

  lemma {:induction false} LeReflexive(a: string)
    ensures Le(a, a)
    decreases |a|
  {
    if |a| > 0 {
      LeReflexive(a[1..]);
    }
  }

  lemma {:induction false} LeTotal(a: string, b: string)
    ensures Le(a, b) || Le(b, a)
    decreases |a|
  {
    if |a| > 0 && |b| > 0 && a[0] == b[0] {
      LeTotal(a[1..], b[1..]);
    }
  }

  lemma {:induction false} LeAntisymmetric(a: string, b: string)
    ensures Le(a, b) && Le(b, a) ==> a == b
    decreases |a|
  {
    if |a| > 0 && |b| > 0 {
      LeAntisymmetric(a[1..], b[1..]);
      assert a == [a[0]] + a[1..] && b == [b[0]] + b[1..];
    }
  }

  lemma {:induction false} LeTransitive(a: string, b: string, c: string)
    requires Le(a, b) && Le(b, c)
    ensures Le(a, c)
    decreases |a|
  {
    if |a| > 0 && a[0] == b[0] && b[0] == c[0] {
      LeTransitive(a[1..], b[1..], c[1..]);
    }
  }
}
