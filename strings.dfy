/**
 * The JavaScript string operations the screens use, on `string` (a sequence
 * of characters): `toLowerCase` (ASCII letters), `trim`, `includes`,
 * `indexOf`, `split` on one character, `String(n)` for integers, and the
 * default `Array.prototype.sort` order on strings.
 */
module Strings {
  import opened Options

  // ---------------------------------------------------------------- case

  function LowerChar(c: char): char
  {
    if 'A' <= c <= 'Z' then (c as int + 32) as char else c
  }

  /** `s.toLowerCase()`, restricted to the ASCII letters. */
  function Lower(s: string): (r: string)
    ensures |r| == |s|
    ensures forall i :: 0 <= i < |s| ==> r[i] == LowerChar(s[i])
  {
    if s == [] then [] else [LowerChar(s[0])] + Lower(s[1..])
  }

  lemma {:induction false} LowerIdempotent(s: string)
    ensures Lower(Lower(s)) == Lower(s)
    ensures forall i :: 0 <= i < |s| ==> !('A' <= Lower(s)[i] <= 'Z')
  {
    if s != [] {
      LowerIdempotent(s[1..]);
      assert Lower(s)[1..] == Lower(s[1..]);
    }
  }

  // ---------------------------------------------------------------- whitespace

  /** JavaScript's WhiteSpace and LineTerminator characters (`trim`, `\s`). */
  predicate IsSpace(c: char)
  {
    c == ' ' || c == '\t' || c == '\n' || c == '\r' || c == '\U{000B}' || c == '\U{000C}'
    || c == '\U{00A0}' || c == '\U{1680}' || ('\U{2000}' <= c <= '\U{200A}')
    || c == '\U{2028}' || c == '\U{2029}' || c == '\U{202F}' || c == '\U{205F}'
    || c == '\U{3000}' || c == '\U{FEFF}'
  }

  predicate AllSpace(s: string)
  {
    forall i :: 0 <= i < |s| ==> IsSpace(s[i])
  }

  function TrimStart(s: string): (r: string)
    ensures |r| <= |s| && r == s[|s| - |r|..]
    ensures AllSpace(s[..|s| - |r|])
    ensures r == [] || !IsSpace(r[0])
  {
    if s != [] && IsSpace(s[0]) then
      var r := TrimStart(s[1..]);
      assert s[..|s| - |r|] == [s[0]] + s[1..][..|s| - 1 - |r|];
      r
    else s
  }

  function TrimEnd(s: string): (r: string)
    ensures |r| <= |s| && r == s[..|r|]
    ensures AllSpace(s[|r|..])
    ensures r == [] || !IsSpace(r[|r| - 1])
  {
    if s != [] && IsSpace(s[|s| - 1]) then
      var r := TrimEnd(s[..|s| - 1]);
      assert s[|r|..] == s[..|s| - 1][|r|..] + [s[|s| - 1]];
      r
    else s
  }

  /** The filter `t => t.length > 0`. */
  function NonEmpty(t: string): bool
  {
    t != ""
  }

  /** `s.trim()`: the slice of `s` between its leading and trailing whitespace. */
  function Trim(s: string): (r: string)
    ensures exists i, j :: 0 <= i <= j <= |s| && r == s[i..j] && AllSpace(s[..i]) && AllSpace(s[j..])
    ensures r == [] || (!IsSpace(r[0]) && !IsSpace(r[|r| - 1]))
  {
    var t := TrimStart(s);
    var r := TrimEnd(t);
    var i := |s| - |t|;
    SliceOfSuffix(s, i, |r|);
    r
  }

  lemma SliceOfSuffix<T>(s: seq<T>, i: nat, k: nat)
    requires i + k <= |s|
    ensures s[i..][..k] == s[i..i + k] && s[i..][k..] == s[i + k..]
  {
  }

  /** The bounds of the slice that `Trim` keeps. */
  lemma TrimBounds(s: string) returns (a: nat, b: nat)
    ensures a <= b <= |s| && Trim(s) == s[a..b]
  {
    var t := TrimStart(s);
    a := |s| - |t|;
    b := a + |TrimEnd(t)|;
  }

  /** Every character that `Trim` keeps comes from its input. */
  lemma TrimChars(s: string)
    ensures forall k :: 0 <= k < |Trim(s)| ==> Trim(s)[k] in s
  {
    var a, b := TrimBounds(s);
    assert forall k :: 0 <= k < |Trim(s)| ==> Trim(s)[k] == s[a + k];
  }

  /** `pieces.map(s => s.trim())`. */
  function TrimAll(ps: seq<string>): (r: seq<string>)
    ensures |r| == |ps|
    ensures forall i :: 0 <= i < |ps| ==> r[i] == Trim(ps[i])
  {
    seq(|ps|, i requires 0 <= i < |ps| => Trim(ps[i]))
  }

  lemma TrimOfTrimmed(s: string)
    requires s == [] || (!IsSpace(s[0]) && !IsSpace(s[|s| - 1]))
    ensures Trim(s) == s
  {
  }

  lemma TrimIdempotent(s: string)
    ensures Trim(Trim(s)) == Trim(s)
  {
    TrimOfTrimmed(Trim(s));
  }

  lemma {:induction false} TrimOfSpaces(s: string)
    requires AllSpace(s)
    ensures Trim(s) == ""
  {
    if s != [] {
      TrimOfSpaces(s[1..]);
    }
  }

  // ---------------------------------------------------------------- search

  predicate IsPrefix(p: string, s: string)
  {
    |p| <= |s| && s[..|p|] == p
  }

  /** `h.includes(n)`. */
  predicate Contains(h: string, n: string)
    decreases |h|
  {
    IsPrefix(n, h) || (h != [] && Contains(h[1..], n))
  }

  predicate OccursAt(h: string, n: string, i: nat)
  {
    i + |n| <= |h| && h[i..i + |n|] == n
  }

  lemma {:induction false} ContainsIffOccurs(h: string, n: string)
    ensures Contains(h, n) <==> exists i: nat :: OccursAt(h, n, i)
  {
    if IsPrefix(n, h) {
      assert OccursAt(h, n, 0);
    }
    if h != [] {
      ContainsIffOccurs(h[1..], n);
      if Contains(h[1..], n) {
        var i: nat :| OccursAt(h[1..], n, i);
        assert OccursAt(h, n, i + 1);
      }
      if i: nat :| OccursAt(h, n, i) {
        if i == 0 {
          assert IsPrefix(n, h);
        } else {
          assert OccursAt(h[1..], n, i - 1);
        }
      }
    } else {
      if i: nat :| OccursAt(h, n, i) {
        assert n == [] && IsPrefix(n, h);
      }
    }
  }

  lemma {:induction false} ContainsAt(h: string, n: string, i: nat)
    requires OccursAt(h, n, i)
    ensures Contains(h, n)
  {
    ContainsIffOccurs(h, n);
  }

  lemma {:induction false} ContainsEmpty(h: string)
    ensures Contains(h, "")
  {
    assert IsPrefix("", h);
  }

  /** `h.indexOf(n)`, with `None` for JavaScript's `-1`. */
  function IndexOf(h: string, n: string): (r: Option<nat>)
    ensures r.Some? ==> OccursAt(h, n, r.value)
    ensures r.Some? ==> forall k: nat :: k < r.value ==> !OccursAt(h, n, k)
    ensures r.None? <==> !Contains(h, n)
    decreases |h|
  {
    if IsPrefix(n, h) then Some(0)
    else if h == [] then None
    else
      match IndexOf(h[1..], n)
      case None => None
      case Some(k) =>
        assert forall j: nat :: 0 < j <= k ==> (OccursAt(h, n, j) <==> OccursAt(h[1..], n, j - 1));
        Some(k + 1)
  }

  // ---------------------------------------------------------------- split

  /** `s.split(sep)` for a one-character separator. */
  function Split(s: string, sep: char): (r: seq<string>)
    ensures |r| >= 1
    ensures forall i :: 0 <= i < |r| ==> sep !in r[i]
  {
    if s == [] then [""]
    else
      var rest := Split(s[1..], sep);
      if s[0] == sep then [""] + rest else [[s[0]] + rest[0]] + rest[1..]
  }

  /** `parts.join(sep)`. */
  function Join(parts: seq<string>, sep: char): string
  {
    if parts == [] then ""
    else if |parts| == 1 then parts[0]
    else parts[0] + [sep] + Join(parts[1..], sep)
  }

  lemma {:induction false} SplitThenJoin(s: string, sep: char)
    ensures Join(Split(s, sep), sep) == s
  {
    if s != [] {
      SplitThenJoin(s[1..], sep);
      var rest := Split(s[1..], sep);
      if s[0] != sep {
        var r := Split(s, sep);
        assert r[1..] == rest[1..];
        if |rest| == 1 {
          assert Join(r, sep) == [s[0]] + rest[0];
        } else {
          assert Join(r, sep) == [s[0]] + rest[0] + [sep] + Join(rest[1..], sep);
        }
        assert s == [s[0]] + s[1..];
      }
    }
  }

  lemma {:induction false} JoinThenSplit(parts: seq<string>, sep: char)
    requires |parts| >= 1
    requires forall i :: 0 <= i < |parts| ==> sep !in parts[i]
    ensures Split(Join(parts, sep), sep) == parts
  {
    if |parts| == 1 {
      SplitOfPlain(parts[0], sep);
    } else {
      JoinThenSplit(parts[1..], sep);
      SplitAppend(parts[0], Join(parts[1..], sep), sep);
      assert parts == [parts[0]] + parts[1..];
    }
  }

  lemma {:induction false} SplitOfPlain(s: string, sep: char)
    requires sep !in s
    ensures Split(s, sep) == [s]
  {
    if s != [] {
      SplitOfPlain(s[1..], sep);
      assert s == [s[0]] + s[1..];
    }
  }

  lemma {:induction false} SplitAppend(a: string, b: string, sep: char)
    requires sep !in a
    ensures Split(a + [sep] + b, sep) == [a] + Split(b, sep)
  {
    if a == [] {
      assert a + [sep] + b == [sep] + b;
      assert ([sep] + b)[1..] == b;
    } else {
      assert (a + [sep] + b)[1..] == a[1..] + [sep] + b;
      SplitAppend(a[1..], b, sep);
      assert a == [a[0]] + a[1..];
    }
  }

  /** `s.split('/').pop()`: the text after the last `/`. */
  function LastSegment(s: string): (r: string)
    ensures '/' !in r
  {
    var parts := Split(s, '/');
    parts[|parts| - 1]
  }

  /** One step of `LastSegment`: the first character either starts the last segment or is dropped. */
  lemma LastSegmentStep(s: string)
    requires s != []
    ensures s[0] == '/' || |Split(s[1..], '/')| > 1 ==> LastSegment(s) == LastSegment(s[1..])
    ensures s[0] != '/' && |Split(s[1..], '/')| == 1 ==> LastSegment(s) == s
  {
    var rest := Split(s[1..], '/');
    var r := Split(s, '/');
    if s[0] == '/' {
      assert r == [""] + rest;
      assert r[|r| - 1] == rest[|rest| - 1];
    } else if |rest| > 1 {
      assert r == [[s[0]] + rest[0]] + rest[1..];
      assert r[|r| - 1] == rest[|rest| - 1];
    } else {
      SplitThenJoin(s[1..], '/');
      assert r == [[s[0]] + rest[0]];
      assert rest[0] == s[1..];
      assert s == [s[0]] + s[1..];
    }
  }

  lemma {:induction false} LastSegmentIsSuffix(s: string)
    ensures |LastSegment(s)| <= |s| && s[|s| - |LastSegment(s)|..] == LastSegment(s)
  {
    if s != [] {
      LastSegmentIsSuffix(s[1..]);
      LastSegmentStep(s);
      if s[0] == '/' || |Split(s[1..], '/')| > 1 {
        assert s[|s| - |LastSegment(s)|..] == s[1..][|s[1..]| - |LastSegment(s[1..])|..];
      }
    }
  }

  /** The last segment is empty exactly when the text is empty or ends with `/`. */
  lemma {:induction false} LastSegmentEmpty(s: string)
    ensures LastSegment(s) == "" <==> (s == "" || s[|s| - 1] == '/')
  {
    if s != [] {
      LastSegmentStep(s);
      if s[0] == '/' || |Split(s[1..], '/')| > 1 {
        if s[1..] == [] {
          assert LastSegment(s[1..]) == "";
        } else {
          LastSegmentEmpty(s[1..]);
          assert s[1..][|s[1..]| - 1] == s[|s| - 1];
        }
      }
    }
  }

  /** The last segment is all of the text or follows a `/`. */
  lemma {:induction false} LastSegmentBoundary(s: string)
    ensures |LastSegment(s)| <= |s|
    ensures |LastSegment(s)| == |s| || s[|s| - |LastSegment(s)| - 1] == '/'
  {
    LastSegmentIsSuffix(s);
    if s != [] {
      LastSegmentStep(s);
      if s[0] == '/' || |Split(s[1..], '/')| > 1 {
        LastSegmentBoundary(s[1..]);
        var n := |LastSegment(s)|;
        if n < |s| - 1 {
          assert s[1..][|s[1..]| - n - 1] == s[|s| - n - 1];
        } else if s[0] != '/' {
          SplitOfPlain(s[1..], '/');
        }
      }
    }
  }

  lemma LastSegmentOfPlain(s: string)
    requires '/' !in s
    ensures LastSegment(s) == s
  {
    SplitOfPlain(s, '/');
  }

  // ---------------------------------------------------------------- numbers

  function DigitChar(d: nat): char
    requires d < 10
  {
    ('0' as int + d) as char
  }

  predicate IsDigit(c: char)
  {
    '0' <= c <= '9'
  }

  function NatToString(n: nat): (r: string)
    ensures r != []
    ensures forall i :: 0 <= i < |r| ==> IsDigit(r[i])
    ensures |r| > 1 ==> r[0] != '0'
  {
    if n < 10 then [DigitChar(n)] else NatToString(n / 10) + [DigitChar(n % 10)]
  }

  /** `String(n)` for an integer. */
  function IntToString(n: int): (r: string)
    ensures r != []
  {
    if n < 0 then "-" + NatToString(-n) else NatToString(n)
  }

  /** The value of a string of decimal digits. */
  function DigitsValue(s: string): nat
    requires forall i :: 0 <= i < |s| ==> IsDigit(s[i])
  {
    if s == [] then 0 else
      var c := s[|s| - 1];
      assert IsDigit(c);
      10 * DigitsValue(s[..|s| - 1]) + (c as int - '0' as int)
  }

  lemma {:induction false} DigitsOfNat(n: nat)
    ensures DigitsValue(NatToString(n)) == n
  {
    if n >= 10 {
      DigitsOfNat(n / 10);
      var r := NatToString(n);
      assert r[..|r| - 1] == NatToString(n / 10);
    }
  }

  /** Distinct integers have distinct decimal strings. */
  lemma IntToStringInjective(m: int, n: int)
    requires IntToString(m) == IntToString(n)
    ensures m == n
  {
    if m >= 0 && n >= 0 {
      DigitsOfNat(m);
      DigitsOfNat(n);
    } else if m < 0 && n < 0 {
      var a, b := IntToString(m), IntToString(n);
      assert a[1..] == NatToString(-m) && b[1..] == NatToString(-n);
      DigitsOfNat(-m);
      DigitsOfNat(-n);
    }
  }

  // ---------------------------------------------------------------- ordering

  /** The order `Array.prototype.sort` uses by default: code unit by code unit. */
  predicate Less(a: string, b: string)
  {
    if a == [] then b != []
    else if b == [] then false
    else if a[0] == b[0] then Less(a[1..], b[1..])
    else a[0] < b[0]
  }

  lemma {:induction false} LessIrreflexive(a: string)
    ensures !Less(a, a)
  {
    if a != [] {
      LessIrreflexive(a[1..]);
    }
  }

  lemma {:induction false} LessTransitive(a: string, b: string, c: string)
    requires Less(a, b) && Less(b, c)
    ensures Less(a, c)
  {
    if a != [] && b != [] && c != [] && a[0] == b[0] && b[0] == c[0] {
      LessTransitive(a[1..], b[1..], c[1..]);
    }
  }

  lemma {:induction false} LessTotal(a: string, b: string)
    requires a != b
    ensures Less(a, b) || Less(b, a)
  {
    if a != [] && b != [] && a[0] == b[0] {
      assert a == [a[0]] + a[1..] && b == [b[0]] + b[1..];
      LessTotal(a[1..], b[1..]);
    }
  }

  lemma LessAsymmetric(a: string, b: string)
    requires Less(a, b)
    ensures !Less(b, a)
  {
    if Less(b, a) {
      LessTransitive(a, b, a);
      LessIrreflexive(a);
    }
  }

  function Elems(s: seq<string>): set<string>
  {
    set x | x in s
  }

  predicate StrictlySorted(s: seq<string>)
  {
    forall i, j :: 0 <= i < j < |s| ==> Less(s[i], s[j])
  }

  /**
   * Adding `x` to the set behind a sorted, duplicate-free list: the list that
   * `Array.from(set).sort()` returns once `set.add(x)` has run.
   */
  function InsertSorted(x: string, s: seq<string>): (r: seq<string>)
    requires StrictlySorted(s)
    ensures StrictlySorted(r)
    ensures Elems(r) == {x} + Elems(s)
  {
    if s == [] then [x]
    else if x == s[0] then s
    else if Less(x, s[0]) then
      assert forall j :: 0 < j < |s| ==> Less(x, s[j]) by {
        forall j | 0 < j < |s| { LessTransitive(x, s[0], s[j]); }
      }
      [x] + s
    else
      LessTotal(x, s[0]);
      var t := InsertSorted(x, s[1..]);
      forall y | y in t
        ensures Less(s[0], y)
      {
        assert y in Elems(t);
        if y != x {
          assert y in Elems(s[1..]);
          var j :| 0 <= j < |s| - 1 && s[1..][j] == y;
          assert s[j + 1] == y;
        }
      }
      assert s == [s[0]] + s[1..];
      assert Elems([s[0]] + t) == {s[0]} + Elems(t);
      [s[0]] + t
  }

  /** Two sorted, duplicate-free lists with the same elements are equal. */
  lemma {:induction false} SortedUnique(a: seq<string>, b: seq<string>)
    requires StrictlySorted(a) && StrictlySorted(b)
    requires Elems(a) == Elems(b)
    ensures a == b
  {
    assert a != [] ==> a[0] in Elems(a);
    assert b != [] ==> b[0] in Elems(b);
    if a != [] && b != [] {
      assert a[0] in Elems(a) && b[0] in Elems(b);
      assert a[0] in b && b[0] in a;
      if a[0] != b[0] {
        var i :| 0 <= i < |b| && b[i] == a[0];
        var j :| 0 <= j < |a| && a[j] == b[0];
        assert Less(a[0], a[j]) && Less(b[0], b[i]);
        LessAsymmetric(a[0], b[0]);
      }
      assert forall x :: x in a[1..] ==> x != a[0] by {
        forall x | x in a[1..] { LessIrreflexive(a[0]); }
      }
      assert forall x :: x in b[1..] ==> x != b[0] by {
        forall x | x in b[1..] { LessIrreflexive(b[0]); }
      }
      assert Elems(a[1..]) == Elems(a) - {a[0]};
      assert Elems(b[1..]) == Elems(b) - {b[0]};
      SortedUnique(a[1..], b[1..]);
      assert a == [a[0]] + a[1..] && b == [b[0]] + b[1..];
    }
  }
}
