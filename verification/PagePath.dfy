/**
  The walk of a page number as a number (src/mm64.c:50-122, 184-214): the slots on the way
  are its digits to the base 512, the root's slot first.  So two pages share a table at some
  depth exactly if they lie in the same aligned block of 512^j pages, and the tables that
  a set of walks needs can be counted from the page numbers alone.
 */
module PagePaths {
  import opened Word64
  import opened RadixTree

  // ---- The digits ------------------------------------------------------------------------

  /** Word w is h with one digit more, and h is short enough to be shifted. */
  predicate Halves(w: Word, h: Word, one: bool) { (w == Append(h, one) && h & 0x1fff_ffff_ffff == h) == true }

  lemma HalvesShift(w: Word, h: Word, one: bool)
    ensures Halves(w, h, one) ==> h == w >> 1
  {
  }

  lemma HalfDigits(n: nat, h: nat, one: bool)
    requires n < MAX_PGN && n == 2 * h + (if one then 1 else 0)
    ensures Halves(OfNat(n), OfNat(h), one)
  {
    SmallPage(h);
    OfNatAppend(h, one);
  }

  lemma HalfWord(n: nat, h: nat, one: bool)
    requires n < MAX_PGN && n == 2 * h + (if one then 1 else 0)
    ensures OfNat(h) == OfNat(n) >> 1
  {
    HalfDigits(n, h, one);
    HalvesShift(OfNat(n), OfNat(h), one);
  }

  /** h is half of n. */
  predicate IsHalf(n: nat, h: nat) { h == n / 2 }

  lemma HalfOf(n: nat, h: nat)
    requires n < MAX_PGN && IsHalf(n, h)
    ensures h < MAX_PGN && OfNat(h) == OfNat(n) >> 1
  {
    HalfWord(n, h, n % 2 == 1);
  }

  lemma Eighth(n: nat, a: nat, b: nat, c: nat)
    requires n < MAX_PGN && IsHalf(n, a) && IsHalf(a, b) && IsHalf(b, c)
    ensures OfNat(c) == OfNat(n) >> 3
  {
    HalfOf(n, a);
    HalfOf(a, b);
    HalfOf(b, c);
    ThreeBits(OfNat(n));
  }

  lemma EighthWord(n: nat, c: nat)
    requires n < MAX_PGN && c == n / 8
    ensures OfNat(c) == OfNat(n) >> 3
  {
    var a, b := Halves3(n, c);
    Eighth(n, a, b, c);
  }

  lemma Halves3(n: nat, c: nat) returns (a: nat, b: nat)
    requires c == n / 8
    ensures IsHalf(n, a) && IsHalf(a, b) && IsHalf(b, c)
  {
    a := n / 2;
    b := a / 2;
  }

  lemma ThreeBits(w: Word)
    ensures ((w >> 1) >> 1) >> 1 == w >> 3 && ((w >> 3) >> 3) >> 3 == w >> 9
  {
  }

  /** Nine digits further up. */
  lemma NextWord(n: nat, m: nat)
    requires n < MAX_PGN && m == n / 512
    ensures OfNat(m) == OfNat(n) >> 9
  {
    var a, b := Eighths3(n, m);
    EighthWord(n, a);
    EighthWord(a, b);
    EighthWord(b, m);
    ThreeBits(OfNat(n));
  }

  lemma Eighths3(n: nat, c: nat) returns (a: nat, b: nat)
    requires n < MAX_PGN && c == n / 512
    ensures a == n / 8 && b == a / 8 && c == b / 8 && a < MAX_PGN && b < MAX_PGN
  {
    a := n / 8;
    b := a / 8;
  }

  lemma Mask9() returns (k: nat)
    ensures Mask(k) == 0x1ff && Pow2(k) == 512
  {
    assert Mask(5) == 0x1f && Pow2(5) == 0x20;
    k := 9;
  }

  lemma LowWord(n: nat)
    requires n < MAX_PGN
    ensures OfNat(n) & 0x1ff == OfNat(n % 512)
  {
    var k := Mask9();
    MaskCuts(n, k, 0x1ff, n % 512);
  }

  lemma FieldsShift(p: Word)
    ensures OfPage(p).pt == p & 0x1ff && OfPage(p).pmd == OfPage(p >> 9).pt && OfPage(p).pud == OfPage(p >> 9).pmd
    ensures OfPage(p).p4d == OfPage(p >> 9).pud && OfPage(p).pgd == OfPage(p >> 9).p4d
  {
  }
  lemma LastIndex(n: nat)
    requires n < MAX_PGN
    ensures OfPage(OfNat(n)).pt as nat == n % 512
  {
    LowWord(n);
    FieldsShift(OfNat(n));
    OfNatHolds(n % 512);
  }

  /** Above the last, the indices are those of the page number shifted by one level. */
  lemma UpperIndices(n: nat, m: nat)
    requires n < MAX_PGN && m == n / 512
    ensures var x, y := OfPage(OfNat(n)), OfPage(OfNat(m));
            x.pmd == y.pt && x.pud == y.pmd && x.p4d == y.pud && x.pgd == y.p4d
  {
    NextWord(n, m);
    FieldsShift(OfNat(n));
  }

  lemma DigitsAre(n: nat, n1: nat, n2: nat, n3: nat, n4: nat)
    requires n < MAX_PGN && n1 == n / 512 && n2 == n1 / 512 && n3 == n2 / 512 && n4 == n3 / 512
    ensures Entries(OfPage(OfNat(n))) == [n4 % 512, n3 % 512, n2 % 512, n1 % 512, n % 512]
  {
    UpperIndices(n, n1);
    UpperIndices(n1, n2);
    UpperIndices(n2, n3);
    UpperIndices(n3, n4);
    LastIndex(n);
    LastIndex(n1);
    LastIndex(n2);
    LastIndex(n3);
    LastIndex(n4);
  }

  lemma PathIs(n: nat)
    requires n < MAX_PGN
    ensures Path(n) == Entries(OfPage(OfNat(n)))
  {
    PageAccepted(n);
  }

  lemma DigitSum(n: nat, n1: nat, n2: nat, n3: nat, n4: nat)
    requires n < MAX_PGN && n1 == n / 512 && n2 == n1 / 512 && n3 == n2 / 512 && n4 == n3 / 512
    ensures (((n4 % 512 * 512 + n3 % 512) * 512 + n2 % 512) * 512 + n1 % 512) * 512 + n % 512 == n
  {
  }

  /** The indices are the digits of the page number to the base 512, the root's first. */
  lemma PathDigits(n: nat)
    requires n < MAX_PGN
    ensures var p := Path(n); (((p[0] * 512 + p[1]) * 512 + p[2]) * 512 + p[3]) * 512 + p[4] == n
  {
    var n1 := n / 512;
    var n2 := n1 / 512;
    var n3 := n2 / 512;
    var n4 := n3 / 512;
    PathIs(n);
    DigitsAre(n, n1, n2, n3, n4);
    DigitSum(n, n1, n2, n3, n4);
  }

  // ---- Paths with a common beginning ----------------------------------------------------

  function Pow512(k: nat): (p: nat)
    ensures p > 0
  {
    if k == 0 then 1 else 512 * Pow512(k - 1)
  }

  /** The page number without its last 5 - k digits. */
  function Quotient(n: nat, k: nat): nat
    requires k <= 5
    decreases 5 - k
  {
    if k == 5 then n else Quotient(n, k + 1) / 512
  }

  lemma PathDigit(n: nat, k: nat)
    requires n < MAX_PGN && k < 5
    ensures Path(n)[k] == Quotient(n, k + 1) % 512
  {
    PathIs(n);
    var n4 := Quotient(n, 1);
    var n3 := Quotient(n, 2);
    var n2 := Quotient(n, 3);
    var n1 := Quotient(n, 4);
    DigitsAre(n, n1, n2, n3, n4);
  }

  lemma RootQuotient(n: nat)
    requires n < MAX_PGN
    ensures Quotient(n, 0) == 0
  {
    var n4 := Quotient(n, 1);
    var n3 := Quotient(n, 2);
    var n2 := Quotient(n, 3);
    var n1 := Quotient(n, 4);
    NoSixthDigit(n, n1, n2, n3, n4);
  }

  lemma NoSixthDigit(n: nat, n1: nat, n2: nat, n3: nat, n4: nat)
    requires n < MAX_PGN && n1 == n / 512 && n2 == n1 / 512 && n3 == n2 / 512 && n4 == n3 / 512
    ensures n4 / 512 == 0
  {
  }

  lemma Regroup(d: nat, q: nat, r: nat)
    ensures d * (512 * q + r) == 512 * d * q + d * r
  {
    assert d * (512 * q + r) == d * (512 * q) + d * r;
    assert d * (512 * q) == 512 * d * q;
  }

  lemma DigitBelow(d: nat, r: nat, rest: nat)
    requires r < 512 && rest < d
    ensures d * r + rest < 512 * d
  {
    assert d * r <= d * 511;
  }

  lemma DivideTwice(n: nat, d: nat)
    requires d > 0
    ensures n / d / 512 == n / (512 * d)
  {
    var q := n / d;
    var r := n - d * q;
    assert 0 <= r < d;
    Regroup(d, q / 512, q % 512);
    DigitBelow(d, q % 512, r);
    QuotientOf(n, 512 * d, q / 512, d * (q % 512) + r);
  }

  lemma QuotientOf(n: nat, d: nat, q: nat, r: nat)
    requires d > 0 && r < d && n == d * q + r
    ensures n / d == q
  {
    Remainder(n, d, q, r);
    assert d * (n / d) == d * q;
    SameFactor(d, n / d, q);
  }

  lemma SameFactor(d: nat, x: nat, y: nat)
    requires d > 0 && d * x == d * y
    ensures x == y
  {
  }

  lemma {:induction false} QuotientIs(n: nat, k: nat)
    requires k <= 5
    ensures Quotient(n, k) == n / Pow512(5 - k)
    decreases 5 - k
  {
    if k < 5 {
      QuotientIs(n, k + 1);
      DivideTwice(n, Pow512(4 - k));
    }
  }

  lemma {:induction false} SameQuotients(a: nat, b: nat, k: nat)
    requires a < MAX_PGN && b < MAX_PGN && k <= 5
    ensures Path(a)[..k] == Path(b)[..k] <==> Quotient(a, k) == Quotient(b, k)
  {
    if k == 0 {
      RootQuotient(a);
      RootQuotient(b);
      assert Path(a)[..0] == Path(b)[..0];
    } else {
      SameQuotients(a, b, k - 1);
      PathDigit(a, k - 1);
      PathDigit(b, k - 1);
      PrefixSnoc(Path(a), Path(b), k - 1);
      SameDigits(Quotient(a, k), Quotient(b, k));
    }
  }

  lemma SameDigits(x: nat, y: nat)
    ensures x == y <==> x / 512 == y / 512 && x % 512 == y % 512
  {
  }

  /** Two pages share the first k tables of their walks exactly if they agree after division
      by the number of pages below such a table. */
  lemma SamePrefixIff(a: nat, b: nat, k: nat)
    requires a < MAX_PGN && b < MAX_PGN && k <= 5
    ensures Path(a)[..k] == Path(b)[..k] <==> a / Pow512(5 - k) == b / Pow512(5 - k)
  {
    SameQuotients(a, b, k);
    QuotientIs(a, k);
    QuotientIs(b, k);
  }

  lemma PrefixSnoc(p: seq<nat>, q: seq<nat>, k: nat)
    requires k < |p| && k < |q|
    ensures p[..k + 1] == q[..k + 1] <==> p[..k] == q[..k] && p[k] == q[k]
  {
    assert p[..k + 1] == p[..k] + [p[k]] && q[..k + 1] == q[..k] + [q[k]];
    if p[..k + 1] == q[..k + 1] {
      assert p[..k + 1][..k] == p[..k] && q[..k + 1][..k] == q[..k] && p[..k + 1][k] == q[..k + 1][k];
    }
  }

  // ---- Counting tables ---------------------------------------------------------------------

  predicate Pages(walked: seq<nat>) { forall i :: 0 <= i < |walked| ==> walked[i] < MAX_PGN }

  function PathsOf(walked: seq<nat>): (ps: seq<seq<nat>>)
    requires Pages(walked)
    ensures |ps| == |walked| && FullPaths(ps)
  {
    seq(|walked|, i requires 0 <= i < |walked| => Path(walked[i]))
  }

  lemma PathsOfSnoc(walked: seq<nat>, pgn: nat)
    requires Pages(walked) && pgn < MAX_PGN
    ensures Pages(walked + [pgn]) && PathsOf(walked + [pgn]) == PathsOf(walked) + [Path(pgn)]
  {
  }

  function Elements<T>(s: seq<T>): set<T> { set x | x in s }

  lemma ElementsSnoc<T>(s: seq<T>, x: T)
    ensures Elements(s + [x]) == Elements(s) + {x}
  {
  }

  lemma SameRepeat<T, U>(s: seq<T>, t: seq<U>)
    requires |s| == |t| > 0 && forall i, j :: 0 <= i < j < |s| ==> (s[i] == s[j] <==> t[i] == t[j])
    ensures s[|s| - 1] in s[..|s| - 1] <==> t[|t| - 1] in t[..|t| - 1]
  {
    var n := |s| - 1;
    if s[n] in s[..n] {
      var i :| 0 <= i < n && s[..n][i] == s[n];
      assert t[..n][i] == t[n];
    }
    if t[n] in t[..n] {
      var i :| 0 <= i < n && t[..n][i] == t[n];
      assert s[..n][i] == s[n];
    }
  }

  /** Where two lists repeat themselves at the same places, they have as many elements. */
  lemma {:induction false} SameSize<T, U>(s: seq<T>, t: seq<U>)
    requires |s| == |t| && forall i, j :: 0 <= i < j < |s| ==> (s[i] == s[j] <==> t[i] == t[j])
    ensures |Elements(s)| == |Elements(t)|
  {
    if s != [] {
      var n := |s| - 1;
      SameSize(s[..n], t[..n]);
      SameRepeat(s, t);
      OneMore(s, n);
      OneMore(t, n);
    }
  }

  lemma OneMore<T>(s: seq<T>, n: nat)
    requires |s| == n + 1
    ensures |Elements(s)| == |Elements(s[..n])| + if s[n] in s[..n] then 0 else 1
  {
    assert s == s[..n] + [s[n]];
    ElementsSnoc(s[..n], s[n]);
    assert s[n] in s[..n] ==> Elements(s) == Elements(s[..n]);
  }

  function Over(n: nat, d: nat): nat
    requires d > 0
  {
    n / d
  }

  function Quotients(walked: seq<nat>, j: nat): (qs: seq<nat>)
    ensures |qs| == |walked| && forall i :: 0 <= i < |walked| ==> qs[i] == Over(walked[i], Pow512(j))
  {
    seq(|walked|, i requires 0 <= i < |walked| => Over(walked[i], Pow512(j)))
  }

  /** The aligned blocks of 512^j pages that the walked pages lie in. */
  function Blocks(walked: seq<nat>, j: nat): set<nat> { Elements(Quotients(walked, j)) }

  ghost function Prefixes(paths: seq<seq<nat>>, d: nat): (ps: seq<seq<nat>>)
    requires FullPaths(paths) && d <= 5
    ensures |ps| == |paths| && forall i :: 0 <= i < |paths| ==> ps[i] == paths[i][..d]
  {
    seq(|paths|, i requires 0 <= i < |paths| => paths[i][..d])
  }

  lemma PrefixesAreBlocks(walked: seq<nat>, d: nat)
    requires Pages(walked) && d <= 5
    ensures |Elements(Prefixes(PathsOf(walked), d))| == |Blocks(walked, 5 - d)|
  {
    var s, t := Prefixes(PathsOf(walked), d), Quotients(walked, 5 - d);
    forall i, j | 0 <= i < j < |walked| ensures s[i] == s[j] <==> t[i] == t[j] {
      SamePrefixIff(walked[i], walked[j], d);
    }
    SameSize(s, t);
  }

  /** The needed tables at depth d or above. */
  ghost function NeededTo(paths: seq<seq<nat>>, d: nat): set<seq<nat>>
    requires FullPaths(paths) && d <= 4
  {
    set x | x in Needed(paths) && |x| <= d
  }

  lemma NeededAt(paths: seq<seq<nat>>, d: nat)
    requires FullPaths(paths) && 0 < d <= 4
    ensures NeededTo(paths, d) == NeededTo(paths, d - 1) + Elements(Prefixes(paths, d))
    ensures NeededTo(paths, d - 1) !! Elements(Prefixes(paths, d))
  {
    forall x ensures x in NeededTo(paths, d) <==> x in NeededTo(paths, d - 1) || x in Prefixes(paths, d) {
      NeededIff(paths, x);
      if |x| == d && x in Needed(paths) {
        var k :| 0 <= k < |paths| && x == paths[k][..|x|];
        assert Prefixes(paths, d)[k] == x;
      }
    }
  }

  lemma NeededRoot(paths: seq<seq<nat>>)
    requires FullPaths(paths)
    ensures NeededTo(paths, 0) == {[]} && NeededTo(paths, 4) == Needed(paths)
  {
    NeededIff(paths, []);
    forall x | x in Needed(paths) ensures |x| <= 4 {
      NeededIff(paths, x);
    }
  }

  lemma LevelSize(walked: seq<nat>, d: nat)
    requires Pages(walked) && 0 < d <= 4
    ensures |NeededTo(PathsOf(walked), d)| == |NeededTo(PathsOf(walked), d - 1)| + |Blocks(walked, 5 - d)|
  {
    NeededAt(PathsOf(walked), d);
    PrefixesAreBlocks(walked, d);
  }

  predicate InBlock(walked: seq<nat>, pgn: nat, j: nat) { Over(pgn, Pow512(j)) in Blocks(walked, j) }

  function Met(walked: seq<nat>, pgn: nat, j: nat): nat { if InBlock(walked, pgn, j) then 1 else 0 }

  /** How many table entries a walk that only reads looks at: one in the root, and one for each
      block of the page that a walked page lies in too. */
  function Looks(walked: seq<nat>, pgn: nat): nat {
    1 + Met(walked, pgn, 4) + Met(walked, pgn, 3) + Met(walked, pgn, 2) + Met(walked, pgn, 1)
  }

  predicate SameBlock(a: nat, b: nat, j: nat) { Over(a, Pow512(j)) == Over(b, Pow512(j)) }

  lemma SameBlockIff(a: nat, b: nat, d: nat, j: nat)
    requires a < MAX_PGN && b < MAX_PGN && d <= 5 && j == 5 - d
    ensures Path(a)[..d] == Path(b)[..d] <==> SameBlock(a, b, j)
  {
    SamePrefixIff(a, b, d);
  }

  lemma NeededIffWalked(walked: seq<nat>, pgn: nat, d: nat, j: nat)
    requires Pages(walked) && pgn < MAX_PGN && 0 < d <= 4 && j == 5 - d
    ensures Path(pgn)[..d] in Needed(PathsOf(walked)) <==> exists k :: 0 <= k < |walked| && SameBlock(walked[k], pgn, j)
  {
    var ps, x := PathsOf(walked), Path(pgn)[..d];
    NeededIff(ps, x);
    if x in Needed(ps) {
      var k :| 0 <= k < |ps| && x == ps[k][..|x|];
      SameBlockIff(walked[k], pgn, d, j);
    }
    if k :| 0 <= k < |walked| && SameBlock(walked[k], pgn, j) {
      SameBlockIff(walked[k], pgn, d, j);
      assert x == ps[k][..|x|];
    }
  }

  lemma NeededInBlock(walked: seq<nat>, pgn: nat, d: nat, j: nat)
    requires Pages(walked) && pgn < MAX_PGN && 0 < d <= 4 && j == 5 - d
    ensures Path(pgn)[..d] in Needed(PathsOf(walked)) <==> Met(walked, pgn, j) == 1
  {
    NeededIffWalked(walked, pgn, d, j);
    InBlockIff(walked, pgn, j);
  }

  lemma InBlockIff(walked: seq<nat>, pgn: nat, j: nat)
    ensures InBlock(walked, pgn, j) <==> exists k :: 0 <= k < |walked| && SameBlock(walked[k], pgn, j)
  {
    var qs := Quotients(walked, j);
    if InBlock(walked, pgn, j) {
      var k :| 0 <= k < |qs| && qs[k] == Over(pgn, Pow512(j));
      assert SameBlock(walked[k], pgn, j);
    }
    if k :| 0 <= k < |walked| && SameBlock(walked[k], pgn, j) {
      assert qs[k] == Over(pgn, Pow512(j));
    }
  }

  /** The tables that walks of these pages need: the root, and at each of the four depths
      below it one table per block that a walked page lies in. */
  lemma NeededBlocks(walked: seq<nat>)
    requires Pages(walked)
    ensures |Needed(PathsOf(walked))| ==
            1 + |Blocks(walked, 4)| + |Blocks(walked, 3)| + |Blocks(walked, 2)| + |Blocks(walked, 1)|
  {
    NeededRoot(PathsOf(walked));
    LevelSize(walked, 1);
    LevelSize(walked, 2);
    LevelSize(walked, 3);
    LevelSize(walked, 4);
  }
}
