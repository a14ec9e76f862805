/** Option, the one wrapper the model needs for values that may be absent (Python's None). */
module Wrappers {
  datatype Option<+T> = None | Some(value: T)
}

/**
 Python string operations the migration tool relies on, over Dafny strings (sequences of code
 points): slicing, `in`, `replace`, `split`, `strip`, `lower`/`upper`, `int()` of a decimal
 string, `f"{n:03d}"` and comparison of strings.
 */
module Text {
  import opened Wrappers

  /** Python's `s[:n]`: the first `n` characters, or all of `s` when it is shorter. */
  function Take(s: string, n: nat): (r: string)
    ensures |r| == if |s| <= n then |s| else n
    ensures r == s[..|r|]
  {
    if |s| <= n then s else s[..n]
  }

  /** `pat` occurs in `s` starting at index `i`. */
  predicate OccursAt(s: string, pat: string, i: int)
  {
    0 <= i && i + |pat| <= |s| && s[i..i + |pat|] == pat
  }

  /** Python's `pat in s`. */
  predicate Contains(s: string, pat: string)
  {
    exists i | 0 <= i <= |s| - |pat| :: OccursAt(s, pat, i)
  }

  /** No proper prefix of `pat` is also a suffix of it, so two occurrences can never overlap. */
  predicate BorderFree(pat: string)
  {
    forall k :: 0 < k < |pat| ==> pat[..k] != pat[|pat| - k..]
  }

  /** Python's `s.replace(pat, rep)`: every non-overlapping occurrence, scanning left to right. */
  function ReplaceAll(s: string, pat: string, rep: string): string
    requires pat != []
    decreases |s|
  {
    if |s| < |pat| then s
    else if s[..|pat|] == pat then rep + ReplaceAll(s[|pat|..], pat, rep)
    else [s[0]] + ReplaceAll(s[1..], pat, rep)
  }

  /** `s.replace(a, b)` for one-character texts replaces each `a` by `b` and keeps the length. */
  lemma {:induction false} ReplaceAllChar(s: string, a: char, b: char)
    ensures |ReplaceAll(s, [a], [b])| == |s|
    ensures forall k :: 0 <= k < |s| ==> ReplaceAll(s, [a], [b])[k] == if s[k] == a then b else s[k]
    decreases |s|
  {
    if s != [] {
      ReplaceAllChar(s[1..], a, b);
      assert s[..1] == [s[0]];
      var r := ReplaceAll(s, [a], [b]);
      assert r == [if s[0] == a then b else s[0]] + ReplaceAll(s[1..], [a], [b]);
    }
  }

  /** Text whose first part holds no first character of `pat` is copied through by replace. */
  lemma {:induction false} ReplaceAllPrefix(p: string, rest: string, pat: string, rep: string)
    requires pat != [] && pat[0] !in p
    ensures ReplaceAll(p + rest, pat, rep) == p + ReplaceAll(rest, pat, rep)
    decreases |p|
  {
    if p != [] {
      var s := p + rest;
      if |s| >= |pat| {
        assert s[..|pat|][0] == p[0];
      } else {
        assert ReplaceAll(rest, pat, rep) == rest;
      }
      assert s[1..] == p[1..] + rest;
      ReplaceAllPrefix(p[1..], rest, pat, rep);
      assert [p[0]] + (p[1..] + ReplaceAll(rest, pat, rep)) == p + ReplaceAll(rest, pat, rep);
    } else {
      assert p + rest == rest;
    }
  }

  /** Replacing a text by itself changes nothing. */
  lemma {:induction false} ReplaceAllSelf(s: string, pat: string)
    requires pat != []
    ensures ReplaceAll(s, pat, pat) == s
    decreases |s|
  {
    if |s| >= |pat| {
      if s[..|pat|] == pat {
        ReplaceAllSelf(s[|pat|..], pat);
        assert s == pat + s[|pat|..];
      } else {
        ReplaceAllSelf(s[1..], pat);
        assert s == [s[0]] + s[1..];
      }
    }
  }

  lemma {:induction false} ContainsTail(s: string, pat: string)
    requires s != [] && !Contains(s, pat)
    ensures !Contains(s[1..], pat)
  {
    if Contains(s[1..], pat) {
      var i :| OccursAt(s[1..], pat, i);
      assert OccursAt(s[1..], pat, i);
      assert s[i + 1..i + 1 + |pat|] == s[1..][i..i + |pat|];
      assert OccursAt(s, pat, i + 1);
    }
  }

  /** A character absent from `s` is absent from everything that occurs in `s`. */
  lemma ContainsNoChar(s: string, r: string, c: char)
    requires Contains(s, r) && c !in s
    ensures c !in r
  {
    var i :| OccursAt(s, r, i);
    assert OccursAt(s, r, i);
    assert forall k :: 0 <= k < |r| ==> r[k] == s[i + k];
  }

  /** A string without an occurrence is left as it is. */
  lemma {:induction false} ReplaceAllAbsent(s: string, pat: string, rep: string)
    requires pat != [] && !Contains(s, pat)
    ensures ReplaceAll(s, pat, rep) == s
    decreases |s|
  {
    if |s| >= |pat| {
      assert !OccursAt(s, pat, 0);
      ContainsTail(s, pat);
      ReplaceAllAbsent(s[1..], pat, rep);
    }
  }

  /** Replacing by a longer text never shortens, and lengthens whenever there is an occurrence. */
  lemma {:induction false} ReplaceAllLonger(s: string, pat: string, rep: string)
    requires pat != [] && |rep| > |pat|
    ensures |ReplaceAll(s, pat, rep)| >= |s|
    ensures Contains(s, pat) ==> |ReplaceAll(s, pat, rep)| > |s|
    decreases |s|
  {
    if |s| >= |pat| {
      if s[..|pat|] == pat {
        ReplaceAllLonger(s[|pat|..], pat, rep);
      } else {
        ReplaceAllLonger(s[1..], pat, rep);
        if Contains(s, pat) {
          var i :| 0 <= i <= |s| - |pat| && OccursAt(s, pat, i);
          assert i != 0;
          assert s[1..][i - 1..i - 1 + |pat|] == s[i..i + |pat|];
          assert OccursAt(s[1..], pat, i - 1);
        }
      }
    }
  }

  /**
   Replacing a border-free suffix in `stem + pat`, where `stem` holds no occurrence, replaces
   exactly that suffix: no occurrence can straddle the junction.
   */
  lemma {:induction false} ReplaceAllSuffix(stem: string, pat: string, rep: string)
    requires pat != [] && BorderFree(pat) && !Contains(stem, pat)
    ensures ReplaceAll(stem + pat, pat, rep) == stem + rep
    decreases |stem|
  {
    var s := stem + pat;
    if stem == [] {
      assert s == pat;
      assert s[|pat|..] == [];
    } else {
      if |stem| >= |pat| {
        assert s[..|pat|] == stem[..|pat|];
        assert !OccursAt(stem, pat, 0);
      } else {
        var k := |pat| - |stem|;
        assert s[..|pat|] == stem + pat[..k];
        assert s[..|pat|] != pat by {
          assert pat[..k] != pat[|pat| - k..];
          assert (stem + pat[..k])[|stem|..] == pat[..k];
        }
      }
      ContainsTail(stem, pat);
      ReplaceAllSuffix(stem[1..], pat, rep);
      assert s[1..] == stem[1..] + pat;
      assert [stem[0]] + (stem[1..] + rep) == stem + rep;
    }
  }

  /**
   Python's `s.split(c, 1)`: the text before the first `c`, and the text after it when `s`
   holds a `c` at all.
   */
  function SplitOnce(s: string, c: char): (r: (string, Option<string>))
    ensures c !in r.0
    ensures r.1.None? <==> c !in s
    ensures r.1.None? ==> r.0 == s
    ensures r.1.Some? ==> s == r.0 + [c] + r.1.value
  {
    if s == [] then ("", None)
    else if s[0] == c then ("", Some(s[1..]))
    else
      var (h, t) := SplitOnce(s[1..], c);
      ([s[0]] + h, t)
  }

  /** Python's `sep.join(parts)`. */
  function Join(parts: seq<string>, sep: string): string
  {
    if |parts| == 0 then ""
    else if |parts| == 1 then parts[0]
    else parts[0] + sep + Join(parts[1..], sep)
  }

  /** The summed length of the parts. */
  function TotalLength(parts: seq<string>): nat
  {
    if parts == [] then 0 else |parts[0]| + TotalLength(parts[1..])
  }

  /** Where part `k` of a join starts: after the parts before it, each followed by one separator. */
  function PartOffset(parts: seq<string>, sep: string, k: nat): nat
    requires k <= |parts|
  {
    if k == 0 then 0 else |parts[0]| + |sep| + PartOffset(parts[1..], sep, k - 1)
  }

  /** Part `k` sits at its offset in `s`, and the separator follows it unless it is the last. */
  predicate PartAt(parts: seq<string>, sep: string, s: string, k: nat)
    requires k < |parts|
  {
    var o := PartOffset(parts, sep, k);
    OccursAt(s, parts[k], o) && (k + 1 < |parts| ==> OccursAt(s, sep, o + |parts[k]|))
  }

  /**
   `s` is laid out as the parts in order with one separator between neighbours and nothing
   else: no parts give the empty text; otherwise each part and separator sits at its offset and
   the length leaves room for nothing more.
   */
  predicate JoinLayout(parts: seq<string>, sep: string, s: string)
  {
    if parts == [] then s == []
    else
      && |s| == TotalLength(parts) + |sep| * (|parts| - 1)
      && forall k :: 0 <= k < |parts| ==> PartAt(parts, sep, s, k)
  }

  /** A join holds every part, and is laid out as the parts in order with separators between. */
  lemma JoinParts(parts: seq<string>, sep: string)
    ensures forall p <- parts :: Contains(Join(parts, sep), p)
    ensures JoinLayout(parts, sep, Join(parts, sep))
  {
    JoinLaidOut(parts, sep);
    forall p | p in parts ensures Contains(Join(parts, sep), p) {
      var k :| 0 <= k < |parts| && parts[k] == p;
      assert PartAt(parts, sep, Join(parts, sep), k);
    }
  }

  lemma {:induction false} JoinLaidOut(parts: seq<string>, sep: string)
    ensures JoinLayout(parts, sep, Join(parts, sep))
  {
    if |parts| == 1 {
      assert OccursAt(parts[0], parts[0], 0);
      assert PartAt(parts, sep, parts[0], 0);
    } else if |parts| > 1 {
      var rest := Join(parts[1..], sep);
      var s := parts[0] + sep + rest;
      var off := |parts[0]| + |sep|;
      JoinLaidOut(parts[1..], sep);
      forall k | 0 <= k < |parts| ensures PartAt(parts, sep, s, k) {
        if k == 0 {
          assert s[..|parts[0]|] == parts[0];
          assert s[|parts[0]|..off] == sep;
        } else {
          ShiftPartAt(parts, sep, s, rest, k);
        }
      }
      assert |sep| * (|parts| - 1) == |sep| + |sep| * (|parts| - 2);
    }
  }

  /** Part `k` of a join sits `|parts[0]| + |sep|` further on than part `k - 1` of the rest. */
  lemma ShiftPartAt(parts: seq<string>, sep: string, s: string, rest: string, k: nat)
    requires 0 < k < |parts|
    requires s == parts[0] + sep + rest
    requires PartAt(parts[1..], sep, rest, k - 1)
    ensures PartAt(parts, sep, s, k)
  {
    var off := |parts[0]| + |sep|;
    var o := PartOffset(parts[1..], sep, k - 1);
    var p := parts[k];
    assert parts[1..][k - 1] == p;
    assert s[off + o..off + o + |p|] == rest[o..o + |p|];
    if k + 1 < |parts| {
      assert s[off + o + |p|..off + o + |p| + |sep|] == rest[o + |p|..o + |p| + |sep|];
    }
  }

  /** The layout pins the text down: only the join is laid out as the join is. */
  lemma {:induction false} JoinLayoutUnique(parts: seq<string>, sep: string, s: string)
    requires JoinLayout(parts, sep, s)
    ensures s == Join(parts, sep)
  {
    if |parts| == 1 {
      assert |sep| * (|parts| - 1) == 0;
      assert |s| == |parts[0]|;
      assert PartAt(parts, sep, s, 0);
      assert s == s[0..|parts[0]|];
    } else if |parts| > 1 {
      var off := |parts[0]| + |sep|;
      assert PartAt(parts, sep, s, 0);
      assert |sep| * (|parts| - 1) == |sep| + |sep| * (|parts| - 2);
      var t := s[off..];
      forall k | 0 <= k < |parts| - 1 ensures PartAt(parts[1..], sep, t, k) {
        assert PartAt(parts, sep, s, k + 1);
        UnshiftPartAt(parts, sep, s, t, k);
      }
      JoinLayoutUnique(parts[1..], sep, t);
      assert s == s[..|parts[0]|] + s[|parts[0]|..off] + t;
    }
  }

  lemma UnshiftPartAt(parts: seq<string>, sep: string, s: string, t: string, k: nat)
    requires k + 1 < |parts|
    requires |parts[0]| + |sep| <= |s| && t == s[|parts[0]| + |sep|..]
    requires PartAt(parts, sep, s, k + 1)
    ensures PartAt(parts[1..], sep, t, k)
  {
    var off := |parts[0]| + |sep|;
    var o := PartOffset(parts[1..], sep, k);
    var p := parts[k + 1];
    assert parts[1..][k] == p;
    assert t[o..o + |p|] == s[off + o..off + o + |p|];
    if k + 2 < |parts| {
      assert t[o + |p|..o + |p| + |sep|] == s[off + o + |p|..off + o + |p| + |sep|];
    }
  }

  /** Text found in the middle part is found in the whole. */
  lemma ContainsWithin(a: string, mid: string, b: string, p: string)
    requires Contains(mid, p)
    ensures Contains(a + mid + b, p)
  {
    var i :| 0 <= i <= |mid| - |p| && OccursAt(mid, p, i);
    assert (a + mid + b)[|a| + i..|a| + i + |p|] == mid[i..i + |p|];
    assert OccursAt(a + mid + b, p, |a| + i);
  }

  /** `s.startswith(p)`. */
  predicate StartsWithText(s: string, p: string)
  {
    |p| <= |s| && s[..|p|] == p
  }

  /** `s.endswith(p)`. */
  predicate EndsWithText(s: string, p: string)
  {
    |p| <= |s| && s[|s| - |p|..] == p
  }

  /**
   Python's `s.split(c)`: the pieces between consecutive `c`s. There is always at least one
   piece, no piece holds a `c`, and joining the pieces with `c` gives back `s`.
   */
  function SplitAll(s: string, c: char): (r: seq<string>)
    ensures |r| >= 1
    ensures forall p <- r :: c !in p
    ensures Join(r, [c]) == s
    decreases |s|
  {
    match SplitOnce(s, c)
    case (h, None) => [h]
    case (h, Some(t)) =>
      var rest := SplitAll(t, c);
      assert Join([h] + rest, [c]) == h + [c] + Join(rest, [c]) by {
        assert ([h] + rest)[1..] == rest;
      }
      [h] + rest
  }

  /** The characters Python's `str.isspace()` accepts. */
  predicate IsSpace(c: char)
  {
    || ('\t' <= c <= '\r') || ('\U{1C}' <= c <= '\U{1F}') || c == ' '
    || c == '\U{85}' || c == '\U{A0}' || c == '\U{1680}' || ('\U{2000}' <= c <= '\U{200A}')
    || c == '\U{2028}' || c == '\U{2029}' || c == '\U{202F}' || c == '\U{205F}' || c == '\U{3000}'
  }

  /** Concatenation is associative. */
  lemma ConcatAssoc<T>(x: seq<T>, y: seq<T>, z: seq<T>)
    ensures (x + y) + z == x + (y + z)
  {
  }

  /** A sequence is its prefix, middle and suffix put back together. */
  lemma SliceThree<T>(s: seq<T>, i: nat, j: nat)
    requires i <= j <= |s|
    ensures s == s[..i] + s[i..j] + s[j..]
  {
  }

  /** Python's `s.lstrip()`. */
  function TrimStart(s: string): (r: string)
    ensures |r| <= |s| && r == s[|s| - |r|..]
    ensures forall k :: 0 <= k < |s| - |r| ==> IsSpace(s[k])
    ensures r != [] ==> !IsSpace(r[0])
  {
    if s != [] && IsSpace(s[0]) then TrimStart(s[1..]) else s
  }

  /** Python's `s.rstrip()`. */
  function TrimEnd(s: string): (r: string)
    ensures |r| <= |s| && r == s[..|r|]
    ensures forall k :: |r| <= k < |s| ==> IsSpace(s[k])
    ensures r != [] ==> !IsSpace(r[|r| - 1])
  {
    if s != [] && IsSpace(s[|s| - 1]) then TrimEnd(s[..|s| - 1]) else s
  }

  /**
   Python's `s.strip()`: the slice of `s` left once the whitespace at both ends is cut; it is
   empty exactly when `s` is all whitespace, and otherwise begins and ends with a non-space.
   */
  function Strip(s: string): (r: string)
    ensures Contains(s, r)
    ensures r == [] <==> forall k :: 0 <= k < |s| ==> IsSpace(s[k])
    ensures r != [] ==> !IsSpace(r[0]) && !IsSpace(r[|r| - 1])
  {
    var t := TrimStart(s);
    var r := TrimEnd(t);
    TrimBoth(s, t, r);
    assert OccursAt(s, r, |s| - |t|);
    r
  }

  lemma TrimBoth(s: string, t: string, r: string)
    requires |t| <= |s| && t == s[|s| - |t|..]
    requires forall k :: 0 <= k < |s| - |t| ==> IsSpace(s[k])
    requires |r| <= |t| && r == t[..|r|]
    requires forall k :: |r| <= k < |t| ==> IsSpace(t[k])
    requires r != [] ==> !IsSpace(r[0])
    ensures r == s[|s| - |t|..|s| - |t| + |r|]
    ensures r == [] <==> forall k :: 0 <= k < |s| ==> IsSpace(s[k])
  {
    var a := |s| - |t|;
    if r == [] {
      forall k | 0 <= k < |s| ensures IsSpace(s[k]) {
        if k >= a {
          assert s[k] == t[k - a];
        }
      }
    } else {
      assert s[a] == r[0];
    }
  }

  /** Python's `c.lower()` for ASCII letters; every other character is left alone. */
  function LowerChar(c: char): char
  {
    if 'A' <= c <= 'Z' then (c as int + 32) as char else c
  }

  /** Python's `c.upper()` for ASCII letters; every other character is left alone. */
  function UpperChar(c: char): char
  {
    if 'a' <= c <= 'z' then (c as int - 32) as char else c
  }

  /** Python's `s.lower()` over ASCII: the same length, and no upper-case ASCII letter is left. */
  function Lower(s: string): (r: string)
    ensures |r| == |s|
    ensures forall k :: 0 <= k < |s| ==> r[k] == LowerChar(s[k])
    ensures forall k :: 0 <= k < |r| ==> !('A' <= r[k] <= 'Z')
  {
    seq(|s|, k requires 0 <= k < |s| => LowerChar(s[k]))
  }

  /** Python's `s.upper()` over ASCII: the same length, and no lower-case ASCII letter is left. */
  function Upper(s: string): (r: string)
    ensures |r| == |s|
    ensures forall k :: 0 <= k < |s| ==> r[k] == UpperChar(s[k])
    ensures forall k :: 0 <= k < |r| ==> !('a' <= r[k] <= 'z')
  {
    seq(|s|, k requires 0 <= k < |s| => UpperChar(s[k]))
  }

  /** Python's `a < b` on strings: code-point lexicographic order. */
  predicate Less(a: string, b: string)
  {
    if a == [] then b != []
    else if b == [] then false
    else if a[0] != b[0] then a[0] < b[0]
    else Less(a[1..], b[1..])
  }

  lemma {:induction false} LessIrreflexive(a: string)
    ensures !Less(a, a)
  {
    if a != [] { LessIrreflexive(a[1..]); }
  }

  lemma {:induction false} LessTransitive(a: string, b: string, c: string)
    requires Less(a, b) && Less(b, c)
    ensures Less(a, c)
  {
    if a != [] && b != [] && c != [] && a[0] == b[0] == c[0] {
      LessTransitive(a[1..], b[1..], c[1..]);
    }
  }

  lemma {:induction false} LessTotal(a: string, b: string)
    requires a != b
    ensures Less(a, b) != Less(b, a)
  {
    if a != [] && b != [] && a[0] == b[0] {
      assert a == [a[0]] + a[1..] && b == [b[0]] + b[1..];
      LessTotal(a[1..], b[1..]);
    }
  }

  /** A non-empty string of ASCII decimal digits: what this model accepts for Python's `int()`. */
  predicate IsDigits(s: string)
  {
    s != [] && forall k :: 0 <= k < |s| ==> '0' <= s[k] <= '9'
  }

  function DigitValue(c: char): nat
    requires '0' <= c <= '9'
  {
    c as int - '0' as int
  }

  /** Python's `int(s)` for a decimal digit string; leading zeros are allowed. */
  function ParseNat(s: string): nat
    requires IsDigits(s)
    decreases |s|
  {
    if |s| == 1 then DigitValue(s[0])
    else ParseNat(s[..|s| - 1]) * 10 + DigitValue(s[|s| - 1])
  }

  /** Python's `str(n)` for a natural number. */
  function NatToDigits(n: nat): (r: string)
    ensures IsDigits(r)
    ensures |r| > 1 ==> r[0] != '0'
  {
    if n < 10 then [('0' as int + n) as char]
    else NatToDigits(n / 10) + [('0' as int + n % 10) as char]
  }

  function Zeros(k: nat): (r: string)
    ensures |r| == k && forall i :: 0 <= i < k ==> r[i] == '0'
  {
    seq(k, _ => '0')
  }

  /** Python's `f"{n:03d}"`: the decimal digits of `n`, left-padded with zeros to three. */
  function Pad3(n: nat): string
  {
    var d := NatToDigits(n);
    if |d| < 3 then Zeros(3 - |d|) + d else d
  }

  lemma {:induction false} ParseNatToDigits(n: nat)
    ensures ParseNat(NatToDigits(n)) == n
  {
    if n >= 10 {
      var d := NatToDigits(n);
      ParseNatToDigits(n / 10);
      assert d[..|d| - 1] == NatToDigits(n / 10);
    }
  }

  /** Leading zeros do not change the value of a digit string. */
  lemma {:induction false} ParseNatLeadingZeros(k: nat, s: string)
    requires IsDigits(s)
    ensures IsDigits(Zeros(k) + s) && ParseNat(Zeros(k) + s) == ParseNat(s)
    decreases |s|
  {
    var z := Zeros(k) + s;
    assert IsDigits(z) by {
      forall i | 0 <= i < |z| ensures '0' <= z[i] <= '9' {
        if i >= k { assert z[i] == s[i - k]; }
      }
    }
    if |s| == 1 {
      ZerosValue(k, s[0]);
    } else {
      assert z[..|z| - 1] == Zeros(k) + s[..|s| - 1];
      ParseNatLeadingZeros(k, s[..|s| - 1]);
    }
  }

  lemma {:induction false} ZerosValue(k: nat, c: char)
    requires '0' <= c <= '9'
    ensures IsDigits(Zeros(k) + [c]) && ParseNat(Zeros(k) + [c]) == DigitValue(c)
  {
    var z := Zeros(k) + [c];
    assert IsDigits(z) by {
      forall i | 0 <= i < |z| ensures '0' <= z[i] <= '9' {
        if i == k { assert z[i] == c; }
      }
    }
    if k > 0 {
      assert z[..|z| - 1] == Zeros(k - 1) + ['0'];
      ZerosValue(k - 1, '0');
    }
  }

  /**
   `Pad3(n)` is a digit string of at least three characters that `int()` reads back as `n`,
   and it is exactly three characters long when `n` has at most three digits.
   */
  lemma {:induction false} Pad3RoundTrip(n: nat)
    ensures IsDigits(Pad3(n)) && ParseNat(Pad3(n)) == n
    ensures |Pad3(n)| >= 3
    ensures n < 1000 ==> |Pad3(n)| == 3
  {
    var d := NatToDigits(n);
    ParseNatToDigits(n);
    if |d| < 3 {
      ParseNatLeadingZeros(3 - |d|, d);
    } else if n < 1000 {
      NatToDigitsLength(n);
    }
  }

  lemma {:induction false} NatToDigitsLength(n: nat)
    ensures n < 10 ==> |NatToDigits(n)| == 1
    ensures n < 100 ==> |NatToDigits(n)| <= 2
    ensures n < 1000 ==> |NatToDigits(n)| <= 3
  {
    if n >= 10 { NatToDigitsLength(n / 10); }
  }
}
