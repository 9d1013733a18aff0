/** Python string built-ins used by the two scripts, stated on `seq<char>`:
    literal substring search (what a regular expression made only of
    literals and one lazy group reduces to), `str.replace` with a non-empty
    pattern, and `str(n)` for a non-negative integer. */
module Text {

  datatype Option<+T> = None | Some(value: T)

  /** `pat` occurs in `s` starting at index `i`. */
  predicate OccursAt(s: string, pat: string, i: nat) {
    i + |pat| <= |s| && s[i..i + |pat|] == pat
  }

  /** `pat` is a contiguous substring of `s`. */
  ghost predicate Contains(s: string, pat: string) {
    exists i: nat :: OccursAt(s, pat, i)
  }

  /** `i` is the leftmost occurrence of `pat` in `s` at or after `from`. */
  ghost predicate FirstAt(s: string, pat: string, from: nat, i: nat) {
    from <= i && OccursAt(s, pat, i) &&
    forall j: nat :: from <= j < i ==> !OccursAt(s, pat, j)
  }

  /** Leftmost occurrence of `pat` in `s` at or after `from`, if any. */
  function IndexOf(s: string, pat: string, from: nat): (r: Option<nat>)
    ensures r.Some? ==> FirstAt(s, pat, from, r.value)
    ensures r.None? ==> forall j: nat :: from <= j ==> !OccursAt(s, pat, j)
    decreases |s| - from
  {
    if from + |pat| > |s| then None
    else if OccursAt(s, pat, from) then Some(from)
    else IndexOf(s, pat, from + 1)
  }

  lemma FirstAtUnique(s: string, pat: string, from: nat, i: nat, j: nat)
    requires FirstAt(s, pat, from, i) && FirstAt(s, pat, from, j)
    ensures i == j
  {
  }

  /** The leftmost occurrence is what IndexOf finds. */
  lemma IndexOfFirst(s: string, pat: string, from: nat, i: nat)
    requires FirstAt(s, pat, from, i)
    ensures IndexOf(s, pat, from) == Some(i)
  {
    var r := IndexOf(s, pat, from);
    assert r.Some?;
    FirstAtUnique(s, pat, from, r.value, i);
  }

  /** An occurrence inside a slice is an occurrence in the whole string. */
  lemma OccursInSlice(s: string, a: nat, b: nat, pat: string, k: nat)
    requires a <= b <= |s|
    requires OccursAt(s[a..b], pat, k)
    ensures OccursAt(s, pat, a + k)
  {
    var w := s[a..b];
    var x, y := s[a + k..a + k + |pat|], w[k..k + |pat|];
    assert forall t | 0 <= t < |pat| :: x[t] == y[t];
    assert x == y;
  }

  /** An occurrence lying within `s[a..b]` is an occurrence in the slice. */
  lemma SliceOccurs(s: string, a: nat, b: nat, pat: string, j: nat)
    requires a <= j && j + |pat| <= b <= |s|
    ensures OccursAt(s, pat, j) ==> OccursAt(s[a..b], pat, j - a)
  {
    var x, y := s[j..j + |pat|], s[a..b][j - a..j - a + |pat|];
    assert forall t | 0 <= t < |pat| :: x[t] == y[t];
    assert x == y;
  }

  /** The last character of `pat` occurs nowhere else in it, so no proper
      prefix of `pat` is also a suffix of it. */
  ghost predicate LastCharUnique(pat: string) {
    pat != [] && forall k :: 0 <= k < |pat| - 1 ==> pat[k] != pat[|pat| - 1]
  }

  lemma LastCharUniqueAppend(h: string, c: char)
    requires c !in h
    ensures LastCharUnique(h + [c])
  {
    assert forall k :: 0 <= k < |h| ==> (h + [c])[k] == h[k] && h[k] in h;
  }

  /** Python's `s.replace(pat, rep)` for a non-empty `pat`: scan left to
      right, replacing each non-overlapping occurrence. */
  function Replace(s: string, pat: string, rep: string): (r: string)
    requires pat != []
    ensures forall c :: c in r ==> c in s || c in rep
    ensures |pat| == 1 && pat[0] !in rep ==> pat[0] !in r
    decreases |s|
  {
    if |s| < |pat| then s
    else if s[..|pat|] == pat then rep + Replace(s[|pat|..], pat, rep)
    else [s[0]] + Replace(s[1..], pat, rep)
  }

  /** If some character of `pat` is missing from `s`, nothing is replaced. */
  lemma {:induction false} ReplaceAbsent(s: string, pat: string, rep: string, c: char)
    requires pat != [] && c in pat && c !in s
    ensures Replace(s, pat, rep) == s
    decreases |s|
  {
    if |s| >= |pat| {
      var k :| 0 <= k < |pat| && pat[k] == c;
      assert s[k] in s;
      assert s[..|pat|][k] != pat[k];
      ReplaceAbsent(s[1..], pat, rep, c);
      assert [s[0]] + s[1..] == s;
    }
  }

  /** A tail whose characters are all foreign to `pat` passes through
      unchanged, and no occurrence can straddle the boundary. */
  lemma {:induction false} ReplaceForeignTail(a: string, b: string, pat: string, rep: string)
    requires pat != []
    requires forall c :: c in b ==> c !in pat
    ensures Replace(a + b, pat, rep) == Replace(a, pat, rep) + b
    decreases |a|
  {
    if a == [] {
      assert a + b == b;
      if b != [] {
        ReplaceAbsent(b, pat, rep, pat[0]);
      }
    } else if |a| < |pat| {
      ReplaceAbsentShort(a, b, pat, rep);
    } else {
      assert (a + b)[..|pat|] == a[..|pat|];
      if a[..|pat|] == pat {
        assert (a + b)[|pat|..] == a[|pat|..] + b;
        ReplaceForeignTail(a[|pat|..], b, pat, rep);
      } else {
        assert (a + b)[1..] == a[1..] + b;
        ReplaceForeignTail(a[1..], b, pat, rep);
      }
    }
  }

  /** Helper of ReplaceForeignTail: a head shorter than `pat` cannot start
      an occurrence, since that occurrence would reach into the tail. */
  lemma {:induction false} ReplaceAbsentShort(a: string, b: string, pat: string, rep: string)
    requires pat != [] && 0 < |a| < |pat|
    requires forall c :: c in b ==> c !in pat
    ensures Replace(a + b, pat, rep) == Replace(a, pat, rep) + b
    decreases |a|
  {
    var s := a + b;
    assert Replace(a, pat, rep) == a;
    if |s| >= |pat| {
      assert s[..|pat|][|a|] == b[0];
      assert b[0] in b && pat[|a|] in pat;
      assert s[..|pat|] != pat;
      assert s[1..] == a[1..] + b;
      if a[1..] == [] {
        assert s[1..] == b;
        ReplaceAbsent(b, pat, rep, pat[0]);
      } else {
        ReplaceAbsentShort(a[1..], b, pat, rep);
        assert Replace(a[1..], pat, rep) == a[1..];
      }
      assert [s[0]] + s[1..] == s;
      assert [a[0]] + a[1..] == a;
    }
  }

  /** A string that starts with `pat` has that occurrence replaced first. */
  lemma ReplaceLeading(pat: string, t: string, rep: string)
    requires pat != []
    ensures Replace(pat + t, pat, rep) == rep + Replace(t, pat, rep)
  {
    assert (pat + t)[..|pat|] == pat;
    assert (pat + t)[|pat|..] == t;
  }

  /** A one-character pattern cannot straddle a boundary, so replacing
      distributes over concatenation. */
  lemma {:induction false} ReplaceCharConcat(x: string, y: string, pat: string, rep: string)
    requires |pat| == 1
    ensures Replace(x + y, pat, rep) == Replace(x, pat, rep) + Replace(y, pat, rep)
    decreases |x|
  {
    if x == [] {
      assert x + y == y;
    } else {
      var s := x + y;
      assert s[..1] == x[..1];
      assert s[1..] == x[1..] + y;
      ReplaceCharConcat(x[1..], y, pat, rep);
    }
  }

  /** What replacing a one-character `pat` does to a piece that is `pat`
      itself or free of it. */
  function Swap(p: string, pat: string, rep: string): string {
    if p == pat then rep else p
  }

  predicate Piece(p: string, pat: string)
    requires |pat| == 1
  {
    p == pat || pat[0] !in p
  }

  lemma ReplacePiece(x: string, y: string, pat: string, rep: string)
    requires |pat| == 1 && Piece(x, pat)
    ensures Replace(x + y, pat, rep) == Swap(x, pat, rep) + Replace(y, pat, rep)
  {
    ReplaceCharConcat(x, y, pat, rep);
    if x == pat {
      ReplaceLeading(pat, [], rep);
      assert pat + [] == pat;
    } else {
      ReplaceAbsent(x, pat, rep, pat[0]);
    }
  }

  /** Deleting `pat` from `pat + rest` when `rest` lacks a character of
      `pat` leaves `rest`. */
  lemma DeleteLeading(pat: string, rest: string, c: char)
    requires c in pat && c !in rest
    ensures Replace(pat + rest, pat, "") == rest
  {
    ReplaceLeading(pat, rest, "");
    ReplaceAbsent(rest, pat, "", c);
    assert "" + rest == rest;
  }

  predicate IsDigit(c: char) { '0' <= c <= '9' }

  function DigitChar(d: nat): (c: char)
    requires d < 10
    ensures IsDigit(c) && c as int - '0' as int == d
  {
    ('0' as int + d) as char
  }

  /** Python's `str(n)` for `n >= 0`: decimal digits, no leading zero. */
  function Decimal(n: nat): (r: string)
    ensures r != [] && forall c :: c in r ==> IsDigit(c)
    ensures |r| > 1 ==> r[0] != '0'
    decreases n
  {
    if n < 10 then [DigitChar(n)] else Decimal(n / 10) + [DigitChar(n % 10)]
  }

  /** The value of a string of decimal digits (the inverse of Decimal). */
  function DecimalValue(s: string): nat
    requires forall c :: c in s ==> IsDigit(c)
  {
    if s == [] then 0
    else
      var d := s[|s| - 1];
      assert d in s && IsDigit(d);
      10 * DecimalValue(s[..|s| - 1]) + (d as int - '0' as int)
  }

  lemma {:induction false} DecimalRoundTrip(n: nat)
    ensures DecimalValue(Decimal(n)) == n
    decreases n
  {
    if n >= 10 {
      var r := Decimal(n);
      assert r[..|r| - 1] == Decimal(n / 10);
      DecimalRoundTrip(n / 10);
    }
  }

  lemma DecimalInjective(n: nat, m: nat)
    requires Decimal(n) == Decimal(m)
    ensures n == m
  {
    DecimalRoundTrip(n);
    DecimalRoundTrip(m);
  }
}
