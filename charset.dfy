/** The charset builder of the password generator: four toggles select fixed,
    inclusive ASCII ranges, which are expanded byte by byte into one sequence. */
module Charset {

  /** Go's `byte`: an unsigned 8-bit value. */
  newtype byte = b: int | 0 <= b < 256

  /** An inclusive interval of code points, the Go code's `struct{ from, to int }`. */
  datatype Range = Range(from: int, to: int)

  /** Every range the Go code uses is non-empty and lies within the byte values. */
  predicate WellFormed(r: Range) {
    0 <= r.from <= r.to < 256
  }

  predicate AllWellFormed(rs: seq<Range>) {
    forall k :: 0 <= k < |rs| ==> WellFormed(rs[k])
  }

  const Upper := Range(65, 90)     // 'A'..'Z'
  const Lower := Range(97, 122)    // 'a'..'z'
  const Digits := Range(48, 57)    // '0'..'9'
  /** The printable symbols, in the four runs between the alphanumerics. */
  const Symbols := [Range(33, 47), Range(58, 64), Range(91, 96), Range(123, 126)]

  /** The bytes lo, lo + 1, ..., hi, ascending. */
  function Span(lo: int, hi: int): (s: seq<byte>)
    requires 0 <= lo && hi < 256
    ensures |s| == (if lo <= hi then hi - lo + 1 else 0)
    ensures forall k :: 0 <= k < |s| ==> s[k] as int == lo + k
    decreases hi - lo
  {
    if lo > hi then [] else Span(lo, hi - 1) + [hi as byte]
  }

  /** The expansions of the ranges rs, concatenated in the order of rs. */
  function Flatten(rs: seq<Range>): seq<byte>
    requires AllWellFormed(rs)
  {
    if rs == [] then []
    else Flatten(rs[..|rs| - 1]) + Span(rs[|rs| - 1].from, rs[|rs| - 1].to)
  }

  /** A toggle's contribution: xs when the toggle is set, nothing otherwise. */
  function Share<T>(on: bool, xs: seq<T>): seq<T> {
    if on then xs else []
  }

  /** The ranges the four toggles select, in the order the Go code appends them. */
  function SelectedRanges(useUpper: bool, useLower: bool, useNumber: bool, useSymbol: bool): (rs: seq<Range>)
    ensures AllWellFormed(rs)
    ensures |rs| == (if useUpper then 1 else 0) + (if useLower then 1 else 0)
                    + (if useNumber then 1 else 0) + (if useSymbol then 4 else 0)
    ensures useUpper ==> rs[0] == Upper
    ensures useLower ==> rs[if useUpper then 1 else 0] == Lower
    ensures useNumber ==> rs[(if useUpper then 1 else 0) + (if useLower then 1 else 0)] == Digits
    ensures useSymbol ==> rs[|rs| - 4..] == Symbols
  {
    Share(useUpper, [Upper]) + Share(useLower, [Lower]) + Share(useNumber, [Digits]) + Share(useSymbol, Symbols)
  }

  /** The charset the builder is specified to return. */
  function ExpectedCharset(useUpper: bool, useLower: bool, useNumber: bool, useSymbol: bool): seq<byte> {
    Flatten(SelectedRanges(useUpper, useLower, useNumber, useSymbol))
  }

  /** Builds the charset: collects the selected ranges in order, then expands them. */
  method GenerateCharset(useUpper: bool, useLower: bool, useNumber: bool, useSymbol: bool)
    returns (charset: seq<byte>)
    ensures charset == ExpectedCharset(useUpper, useLower, useNumber, useSymbol)
  {
    var ranges: seq<Range> := [];
    if useUpper {
      ranges := ranges + [Upper];
    }
    if useLower {
      ranges := ranges + [Lower];
    }
    if useNumber {
      ranges := ranges + [Digits];
    }
    if useSymbol {
      ranges := ranges + Symbols;
    }
    assert ranges == SelectedRanges(useUpper, useLower, useNumber, useSymbol);
    charset := ExpandRanges(ranges);
  }

  /** Appends every byte of every range in turn, each range ascending. */
  method ExpandRanges(ranges: seq<Range>) returns (charset: seq<byte>)
    requires AllWellFormed(ranges)
    ensures charset == Flatten(ranges)
  {
    charset := [];
    var j := 0;
    while j < |ranges|
      invariant 0 <= j <= |ranges|
      invariant charset == Flatten(ranges[..j])
    {
      var r := ranges[j];
      ghost var done := charset;
      var i := r.from;
      while i <= r.to
        invariant r.from <= i <= r.to + 1
        invariant charset == done + Span(r.from, i - 1)
      {
        charset := charset + [i as byte];
        i := i + 1;
      }
      FlattenPrefix(ranges, j);
      j := j + 1;
    }
    assert ranges[..j] == ranges;
  }

  /** Flatten over one more range of rs appends that range's bytes. */
  lemma FlattenPrefix(rs: seq<Range>, j: nat)
    requires AllWellFormed(rs) && j < |rs|
    ensures AllWellFormed(rs[..j]) && AllWellFormed(rs[..j + 1])
    ensures Flatten(rs[..j + 1]) == Flatten(rs[..j]) + Span(rs[j].from, rs[j].to)
  {
    assert rs[..j + 1][..j] == rs[..j];
  }

  // ---------------------------------------------------------------------------
  // An independent description of the character classes

  predicate IsUpper(c: int) { 'A' as int <= c <= 'Z' as int }
  predicate IsLower(c: int) { 'a' as int <= c <= 'z' as int }
  predicate IsDigit(c: int) { '0' as int <= c <= '9' as int }
  /** Printable ASCII other than space: '!' through '~'. */
  predicate IsPrintable(c: int) { '!' as int <= c <= '~' as int }
  /** A symbol is a printable, non-space character that is not alphanumeric. */
  predicate IsSymbol(c: int) { IsPrintable(c) && !IsUpper(c) && !IsLower(c) && !IsDigit(c) }

  /** The characters the toggles admit. */
  predicate Admitted(c: int, useUpper: bool, useLower: bool, useNumber: bool, useSymbol: bool) {
    (useUpper && IsUpper(c)) || (useLower && IsLower(c)) || (useNumber && IsDigit(c)) || (useSymbol && IsSymbol(c))
  }

  predicate Distinct(s: seq<byte>) {
    forall i, j :: 0 <= i < j < |s| ==> s[i] != s[j]
  }

  // ---------------------------------------------------------------------------
  // Lemmas about Span and Flatten

  lemma SpanMember(lo: int, hi: int, c: byte)
    requires 0 <= lo && hi < 256
    ensures c in Span(lo, hi) <==> lo <= c as int <= hi
  {
    var s := Span(lo, hi);
    if lo <= c as int <= hi {
      assert s[c as int - lo] == c;
    }
  }

  lemma {:induction false} FlattenAppend(a: seq<Range>, b: seq<Range>)
    requires AllWellFormed(a) && AllWellFormed(b)
    ensures AllWellFormed(a + b)
    ensures Flatten(a + b) == Flatten(a) + Flatten(b)
  {
    var ab := a + b;
    assert forall k :: 0 <= k < |ab| ==> ab[k] == if k < |a| then a[k] else b[k - |a|];
    if b == [] {
      assert ab == a;
    } else {
      var b', last := b[..|b| - 1], b[|b| - 1];
      assert AllWellFormed(b');
      assert ab[..|ab| - 1] == a + b';
      assert ab[|ab| - 1] == last;
      FlattenAppend(a, b');
      assert Flatten(ab) == Flatten(a + b') + Span(last.from, last.to);
      assert Flatten(b) == Flatten(b') + Span(last.from, last.to);
    }
  }

  /** Every byte of Flatten(rs) comes from one of the ranges, and every byte of
      every range occurs in Flatten(rs). */
  lemma {:induction false} FlattenMember(rs: seq<Range>, c: byte)
    requires AllWellFormed(rs)
    ensures c in Flatten(rs) <==> exists k :: 0 <= k < |rs| && rs[k].from <= c as int <= rs[k].to
  {
    if rs != [] {
      var n := |rs| - 1;
      var init := rs[..n];
      FlattenPrefix(rs, n);
      assert rs[..n + 1] == rs;
      FlattenMember(init, c);
      SpanMember(rs[n].from, rs[n].to, c);
      assert forall k :: 0 <= k < n ==> init[k] == rs[k];
    }
  }

  /** Ranges that do not overlap. */
  predicate PairwiseDisjoint(rs: seq<Range>) {
    forall i, j :: 0 <= i < j < |rs| ==> rs[i].to < rs[j].from || rs[j].to < rs[i].from
  }

  /** Disjoint ranges expand to a sequence without repetitions. */
  lemma {:induction false} FlattenDistinct(rs: seq<Range>)
    requires AllWellFormed(rs) && PairwiseDisjoint(rs)
    ensures Distinct(Flatten(rs))
  {
    if rs != [] {
      var n := |rs| - 1;
      var init := rs[..n];
      FlattenDistinct(init);
      FlattenPrefix(rs, n);
      assert rs[..n + 1] == rs;
      var a, b := Flatten(init), Span(rs[n].from, rs[n].to);
      forall i, j | 0 <= i < |a| && 0 <= j < |b|
        ensures a[i] != b[j]
      {
        FlattenMember(init, a[i]);
        var k :| 0 <= k < |init| && init[k].from <= a[i] as int <= init[k].to;
        assert init[k] == rs[k];
      }
    }
  }

  // ---------------------------------------------------------------------------
  // Properties of the charset

  /** A single well-formed range flattens to its own bytes. */
  lemma FlattenSingle(r: Range)
    requires WellFormed(r)
    ensures Flatten([r]) == Span(r.from, r.to)
  {
    assert [r][..0] == [];
  }

  /** The bytes of one range: how many, and which. */
  lemma RangeBytes(r: Range, c: byte)
    requires WellFormed(r)
    ensures |Flatten([r])| == r.to - r.from + 1
    ensures c in Flatten([r]) <==> r.from <= c as int <= r.to
  {
    FlattenSingle(r);
    SpanMember(r.from, r.to, c);
  }

  /** The four symbol runs, in order. */
  lemma SymbolsLayout()
    ensures Flatten(Symbols) == Span(33, 47) + Span(58, 64) + Span(91, 96) + Span(123, 126)
  {
    var a, b, c, d := Span(33, 47), Span(58, 64), Span(91, 96), Span(123, 126);
    FlattenSingle(Symbols[0]);
    assert Symbols[..1] == [Symbols[0]];
    assert Flatten(Symbols[..1]) == a;
    FlattenPrefix(Symbols, 1);
    assert Flatten(Symbols[..2]) == a + b;
    FlattenPrefix(Symbols, 2);
    assert Flatten(Symbols[..3]) == a + b + c;
    FlattenPrefix(Symbols, 3);
    assert Symbols[..4] == Symbols;
  }

  /** The symbol runs hold 32 bytes, exactly the symbols. */
  lemma SymbolBytes(c: byte)
    ensures |Flatten(Symbols)| == 32
    ensures c in Flatten(Symbols) <==> IsSymbol(c as int)
  {
    SymbolsLayout();
    SpanMember(33, 47, c);
    SpanMember(58, 64, c);
    SpanMember(91, 96, c);
    SpanMember(123, 126, c);
  }

  lemma FlattenShare(on: bool, rs: seq<Range>)
    requires AllWellFormed(rs)
    ensures Flatten(Share(on, rs)) == Share(on, Flatten(rs))
  {
  }

  lemma ShareMember<T>(on: bool, xs: seq<T>, x: T)
    ensures |Share(on, xs)| == if on then |xs| else 0
    ensures x in Share(on, xs) <==> on && x in xs
  {
  }

  /** The charset is each toggle's share of bytes, in the fixed order. */
  lemma CharsetLayout(useUpper: bool, useLower: bool, useNumber: bool, useSymbol: bool)
    ensures ExpectedCharset(useUpper, useLower, useNumber, useSymbol)
         == Share(useUpper, Flatten([Upper])) + Share(useLower, Flatten([Lower]))
          + Share(useNumber, Flatten([Digits])) + Share(useSymbol, Flatten(Symbols))
  {
    var u, l, n, y := Share(useUpper, [Upper]), Share(useLower, [Lower]), Share(useNumber, [Digits]), Share(useSymbol, Symbols);
    FlattenAppend(u, l);
    FlattenAppend(u + l, n);
    FlattenAppend(u + l + n, y);
    FlattenShare(useUpper, [Upper]);
    FlattenShare(useLower, [Lower]);
    FlattenShare(useNumber, [Digits]);
    FlattenShare(useSymbol, Symbols);
  }

  /** The length of the charset: 26 per letter case, 10 digits, 32 symbols. */
  lemma CharsetSize(useUpper: bool, useLower: bool, useNumber: bool, useSymbol: bool)
    ensures |ExpectedCharset(useUpper, useLower, useNumber, useSymbol)|
         == (if useUpper then 26 else 0) + (if useLower then 26 else 0)
          + (if useNumber then 10 else 0) + (if useSymbol then 32 else 0)
  {
    CharsetLayout(useUpper, useLower, useNumber, useSymbol);
    RangeBytes(Upper, 0);
    RangeBytes(Lower, 0);
    RangeBytes(Digits, 0);
    SymbolBytes(0);
  }

  /** The charset is empty exactly when no toggle is set. */
  lemma CharsetEmpty(useUpper: bool, useLower: bool, useNumber: bool, useSymbol: bool)
    ensures ExpectedCharset(useUpper, useLower, useNumber, useSymbol) == []
        <==> !useUpper && !useLower && !useNumber && !useSymbol
  {
    CharsetSize(useUpper, useLower, useNumber, useSymbol);
  }

  /** Membership in each toggle's share of bytes. */
  lemma SharesMember(useUpper: bool, useLower: bool, useNumber: bool, useSymbol: bool, c: byte)
    ensures c in Share(useUpper, Flatten([Upper])) <==> useUpper && IsUpper(c as int)
    ensures c in Share(useLower, Flatten([Lower])) <==> useLower && IsLower(c as int)
    ensures c in Share(useNumber, Flatten([Digits])) <==> useNumber && IsDigit(c as int)
    ensures c in Share(useSymbol, Flatten(Symbols)) <==> useSymbol && IsSymbol(c as int)
  {
    RangeBytes(Upper, c);
    ShareMember(useUpper, Flatten([Upper]), c);
    RangeBytes(Lower, c);
    ShareMember(useLower, Flatten([Lower]), c);
    RangeBytes(Digits, c);
    ShareMember(useNumber, Flatten([Digits]), c);
    SymbolBytes(c);
    ShareMember(useSymbol, Flatten(Symbols), c);
  }

  /** A byte is in the charset exactly when one of the set toggles admits it. */
  lemma CharsetMember(useUpper: bool, useLower: bool, useNumber: bool, useSymbol: bool, c: byte)
    ensures c in ExpectedCharset(useUpper, useLower, useNumber, useSymbol)
        <==> Admitted(c as int, useUpper, useLower, useNumber, useSymbol)
  {
    CharsetLayout(useUpper, useLower, useNumber, useSymbol);
    SharesMember(useUpper, useLower, useNumber, useSymbol, c);
  }

  /** Every byte of the charset is printable ASCII, so never the space 32. */
  lemma CharsetPrintable(useUpper: bool, useLower: bool, useNumber: bool, useSymbol: bool)
    ensures forall k :: 0 <= k < |ExpectedCharset(useUpper, useLower, useNumber, useSymbol)| ==>
              var c := ExpectedCharset(useUpper, useLower, useNumber, useSymbol)[k];
              IsPrintable(c as int) && c != 32
  {
    var cs := ExpectedCharset(useUpper, useLower, useNumber, useSymbol);
    forall k | 0 <= k < |cs|
      ensures IsPrintable(cs[k] as int)
    {
      CharsetMember(useUpper, useLower, useNumber, useSymbol, cs[k]);
    }
  }

  /** The selected ranges never overlap. */
  lemma SelectedDisjoint(useUpper: bool, useLower: bool, useNumber: bool, useSymbol: bool)
    ensures PairwiseDisjoint(SelectedRanges(useUpper, useLower, useNumber, useSymbol))
  {
    SharesDisjoint(Share(useUpper, [Upper]), Share(useLower, [Lower]), Share(useNumber, [Digits]), Share(useSymbol, Symbols),
                   useUpper, useLower, useNumber, useSymbol);
  }

  /** The toggles' shares of ranges are disjoint however they are chosen. */
  lemma SharesDisjoint(u: seq<Range>, l: seq<Range>, n: seq<Range>, y: seq<Range>,
                       useUpper: bool, useLower: bool, useNumber: bool, useSymbol: bool)
    requires u == Share(useUpper, [Upper]) && l == Share(useLower, [Lower])
    requires n == Share(useNumber, [Digits]) && y == Share(useSymbol, Symbols)
    ensures PairwiseDisjoint(u + l + n + y)
  {
    SymbolsApart();
    ShareDisjoint(useUpper, [Upper]);
    ShareDisjoint(useLower, [Lower]);
    ShareDisjoint(useNumber, [Digits]);
    ShareDisjoint(useSymbol, Symbols);
    SeparatedShare(useUpper, [Upper], useLower, [Lower]);
    SeparatedShare(useUpper, [Upper], useNumber, [Digits]);
    SeparatedShare(useLower, [Lower], useNumber, [Digits]);
    SeparatedShare(useUpper, [Upper], useSymbol, Symbols);
    SeparatedShare(useLower, [Lower], useSymbol, Symbols);
    SeparatedShare(useNumber, [Digits], useSymbol, Symbols);
    FourDisjoint(u, l, n, y);
  }

  /** Four lists of disjoint ranges, each pair separated, concatenate to disjoint ranges. */
  lemma FourDisjoint(u: seq<Range>, l: seq<Range>, n: seq<Range>, y: seq<Range>)
    requires PairwiseDisjoint(u) && PairwiseDisjoint(l) && PairwiseDisjoint(n) && PairwiseDisjoint(y)
    requires Separated(u, l) && Separated(u, n) && Separated(l, n)
    requires Separated(u, y) && Separated(l, y) && Separated(n, y)
    ensures PairwiseDisjoint(u + l + n + y)
  {
    SeparatedAppend(u, l);
    SeparatedJoin(u, l, n);
    SeparatedAppend(u + l, n);
    SeparatedJoin(u, l, y);
    SeparatedJoin(u + l, n, y);
    SeparatedAppend(u + l + n, y);
  }

  /** Dropping a list's ranges keeps it disjoint. */
  lemma ShareDisjoint(on: bool, xs: seq<Range>)
    requires PairwiseDisjoint(xs)
    ensures PairwiseDisjoint(Share(on, xs))
  {
  }

  /** The symbol runs neither overlap each other nor any letter or digit range. */
  lemma SymbolsApart()
    ensures PairwiseDisjoint(Symbols)
    ensures Separated([Upper], Symbols) && Separated([Lower], Symbols) && Separated([Digits], Symbols)
  {
  }

  /** Dropping either side's ranges keeps two lists separated. */
  lemma SeparatedShare(onA: bool, a: seq<Range>, onB: bool, b: seq<Range>)
    requires Separated(a, b)
    ensures Separated(Share(onA, a), Share(onB, b))
  {
  }

  /** Two lists each separated from a third are separated from it together. */
  lemma SeparatedJoin(a: seq<Range>, b: seq<Range>, c: seq<Range>)
    requires Separated(a, c) && Separated(b, c)
    ensures Separated(a + b, c)
  {
    forall i, j | 0 <= i < |a + b| && 0 <= j < |c|
      ensures (a + b)[i].to < c[j].from || c[j].to < (a + b)[i].from
    {
      if i >= |a| {
        assert (a + b)[i] == b[i - |a|];
      }
    }
  }

  /** Two lists of ranges whose every range lies apart from every range of the other. */
  predicate Separated(a: seq<Range>, b: seq<Range>) {
    forall i, j :: 0 <= i < |a| && 0 <= j < |b| ==> a[i].to < b[j].from || b[j].to < a[i].from
  }

  /** Concatenating two separated lists of disjoint ranges keeps them disjoint. */
  lemma SeparatedAppend(a: seq<Range>, b: seq<Range>)
    requires PairwiseDisjoint(a) && PairwiseDisjoint(b) && Separated(a, b)
    ensures PairwiseDisjoint(a + b)
  {
    var c := a + b;
    forall i, j | 0 <= i < j < |c|
      ensures c[i].to < c[j].from || c[j].to < c[i].from
    {
      if j < |a| {
        assert c[i] == a[i] && c[j] == a[j];
      } else if i < |a| {
        assert c[i] == a[i] && c[j] == b[j - |a|];
      } else {
        assert c[i] == b[i - |a|] && c[j] == b[j - |a|];
      }
    }
  }

  /** The charset holds no repeated byte. */
  lemma CharsetDistinct(useUpper: bool, useLower: bool, useNumber: bool, useSymbol: bool)
    ensures Distinct(ExpectedCharset(useUpper, useLower, useNumber, useSymbol))
  {
    SelectedDisjoint(useUpper, useLower, useNumber, useSymbol);
    FlattenDistinct(SelectedRanges(useUpper, useLower, useNumber, useSymbol));
  }

  /** With every toggle set the charset is all 94 printable ASCII characters. */
  lemma FullCharset()
    ensures |ExpectedCharset(true, true, true, true)| == 94
    ensures forall c: byte :: c in ExpectedCharset(true, true, true, true) <==> IsPrintable(c as int)
  {
    CharsetSize(true, true, true, true);
    forall c: byte
      ensures c in ExpectedCharset(true, true, true, true) <==> IsPrintable(c as int)
    {
      CharsetMember(true, true, true, true, c);
    }
  }

  /** Upper case alone gives 'A' through 'Z', ascending. */
  lemma UpperOnly()
    ensures var cs := ExpectedCharset(true, false, false, false);
            |cs| == 26 && forall k :: 0 <= k < 26 ==> cs[k] as int == 'A' as int + k
  {
    CharsetLayout(true, false, false, false);
    FlattenSingle(Upper);
  }
}
