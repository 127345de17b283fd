/** util/bech32/bech32.go: the BCH checksum over 5-bit symbols. The program keeps the
    remainder in one integer of 40 bits; here it is also a polynomial of eight 5-bit
    coefficients, on which the checksum is linear. */
module Checksums {

  /** A remainder: the coefficients of x^7 down to x^0. */
  datatype Poly = Poly(c7: bv5, c6: bv5, c5: bv5, c4: bv5, c3: bv5, c2: bv5, c1: bv5, c0: bv5)

  const ZERO := Poly(0, 0, 0, 0, 0, 0, 0, 0)
  const ONE := Poly(0, 0, 0, 0, 0, 0, 0, 1)

  function Add(a: Poly, b: Poly): Poly {
    Poly(a.c7 ^ b.c7, a.c6 ^ b.c6, a.c5 ^ b.c5, a.c4 ^ b.c4, a.c3 ^ b.c3, a.c2 ^ b.c2, a.c1 ^ b.c1, a.c0 ^ b.c0)
  }

  /** The generator of the CashAddr checksum, as integers. */
  const GENERATOR: seq<bv40> := [0x98f2bc8e61, 0x79b76d99e2, 0xf33e5fb3c4, 0xae2eabe2a8, 0x1e4f43e470]

  /** What each bit of the leading coefficient leaves behind when it is shifted out. */
  const REMAINDERS: seq<Poly> := [
    Poly(19, 3, 25, 11, 25, 3, 19, 1),
    Poly(15, 6, 27, 22, 27, 6, 15, 2),
    Poly(30, 12, 31, 5, 31, 12, 30, 4),
    Poly(21, 24, 23, 10, 23, 24, 21, 8),
    Poly(3, 25, 7, 20, 7, 25, 3, 16)]

  /** Adds the remainders selected by the bits of `top`. */
  function Mix(p: Poly, top: bv5, remainders: seq<Poly>): Poly
    decreases |remainders|
  {
    if remainders == [] then p
    else Mix(AddIf(top & 1 == 1, p, remainders[0]), top >> 1, remainders[1..])
  }

  /** Multiplication by x and addition of a symbol, modulo the generator. */
  function Step(p: Poly, v: bv5): Poly {
    Mix(Shifted(p, v), p.c7, REMAINDERS)
  }

  function Shifted(p: Poly, v: bv5): Poly {
    Poly(p.c6, p.c5, p.c4, p.c3, p.c2, p.c1, p.c0, v)
  }

  function Fold(p: Poly, values: seq<bv5>): Poly {
    if values == [] then p else Step(Fold(p, values[..|values| - 1]), values[|values| - 1])
  }

  function PolyMod(values: seq<bv5>): Poly {
    Add(Fold(ONE, values), ONE)
  }

  // ----- addition -----

  lemma AddZero(a: Poly)
    ensures Add(a, ZERO) == a && Add(ZERO, a) == a && Add(a, a) == ZERO
  {
  }

  lemma AddIsZero(a: Poly, b: Poly)
    requires Add(a, b) == ZERO
    ensures a == b
  {
  }

  lemma AddCommutes(a: Poly, b: Poly)
    ensures Add(a, b) == Add(b, a)
  {
  }

  lemma AddAssociates(a: Poly, b: Poly, c: Poly)
    ensures Add(Add(a, b), c) == Add(a, Add(b, c))
  {
  }

  lemma AddBoth(a: Poly, b: Poly, g: Poly)
    ensures Add(Add(a, g), Add(b, g)) == Add(a, b)
  {
    AddAssociates(Add(a, g), b, g);
    AddCommutes(b, g);
    AddAssociates(a, g, Add(g, b));
    AddAssociates(g, g, b);
    AddZero(g);
    AddZero(b);
  }

  lemma AddLeft(a: Poly, b: Poly, g: Poly)
    ensures Add(Add(a, g), b) == Add(Add(a, b), g)
  {
    AddAssociates(a, g, b);
    AddCommutes(g, b);
    AddAssociates(a, b, g);
  }

  // ----- the step is linear and loses nothing -----

  lemma LowBit(s: bv5, t: bv5)
    ensures ((s ^ t) & 1 == 1) <==> ((s & 1 == 1) != (t & 1 == 1))
    ensures (s ^ t) >> 1 == (s >> 1) ^ (t >> 1)
  {
  }

  function AddIf(on: bool, p: Poly, g: Poly): Poly {
    if on then Add(p, g) else p
  }

  lemma AddIfLinear(a: Poly, b: Poly, p: bool, q: bool, g: Poly)
    ensures AddIf(p != q, Add(a, b), g) == Add(AddIf(p, a, g), AddIf(q, b, g))
  {
    if p {
      if q {
        AddBoth(a, b, g);
      } else {
        AddLeft(a, b, g);
      }
    } else if q {
      AddAssociates(a, b, g);
    }
  }

  lemma {:induction false} MixLinear(a: Poly, b: Poly, s: bv5, t: bv5, remainders: seq<Poly>)
    ensures Mix(Add(a, b), s ^ t, remainders) == Add(Mix(a, s, remainders), Mix(b, t, remainders))
    decreases |remainders|
  {
    if remainders != [] {
      var g, rest := remainders[0], remainders[1..];
      LowBit(s, t);
      AddIfLinear(a, b, s & 1 == 1, t & 1 == 1, g);
      MixLinear(AddIf(s & 1 == 1, a, g), AddIf(t & 1 == 1, b, g), s >> 1, t >> 1, rest);
    }
  }

  lemma StepLinear(a: Poly, b: Poly, u: bv5, v: bv5)
    ensures Step(Add(a, b), u ^ v) == Add(Step(a, u), Step(b, v))
  {
    hide Mix, Add, Shifted;
    ShiftedLinear(a, b, u, v);
    MixLinear(Shifted(a, u), Shifted(b, v), a.c7, b.c7, REMAINDERS);
  }

  lemma ShiftedLinear(a: Poly, b: Poly, u: bv5, v: bv5)
    ensures Shifted(Add(a, b), u ^ v) == Add(Shifted(a, u), Shifted(b, v)) && Add(a, b).c7 == a.c7 ^ b.c7
  {
  }

  lemma MixNothing(p: Poly, remainders: seq<Poly>)
    ensures Mix(p, 0, remainders) == p
    decreases |remainders|
  {
  }

  /** A state below x^7 is only shifted. */
  lemma StepShifts(p: Poly, v: bv5)
    requires p.c7 == 0
    ensures Step(p, v) == Poly(p.c6, p.c5, p.c4, p.c3, p.c2, p.c1, p.c0, v)
  {
    MixNothing(Poly(p.c6, p.c5, p.c4, p.c3, p.c2, p.c1, p.c0, v), REMAINDERS);
  }

  /** A step with the bits of the leading coefficient one by one. */
  lemma StepByBits(p: Poly, v: bv5)
    ensures Step(p, v)
         == AddIf((p.c7 >> 4) & 1 == 1,
                  AddIf((p.c7 >> 3) & 1 == 1,
                        AddIf((p.c7 >> 2) & 1 == 1,
                              AddIf((p.c7 >> 1) & 1 == 1,
                                    AddIf(p.c7 & 1 == 1, Shifted(p, v), REMAINDERS[0]),
                                    REMAINDERS[1]),
                              REMAINDERS[2]),
                        REMAINDERS[3]),
                  REMAINDERS[4])
  {
    hide AddIf, Shifted;
    Shifts(p.c7);
    MixFrom(Shifted(p, v), p.c7, 0);
    var p1 := AddIf(p.c7 & 1 == 1, Shifted(p, v), REMAINDERS[0]);
    MixFrom(p1, p.c7 >> 1, 1);
    var p2 := AddIf((p.c7 >> 1) & 1 == 1, p1, REMAINDERS[1]);
    MixFrom(p2, p.c7 >> 2, 2);
    var p3 := AddIf((p.c7 >> 2) & 1 == 1, p2, REMAINDERS[2]);
    MixFrom(p3, p.c7 >> 3, 3);
    var p4 := AddIf((p.c7 >> 3) & 1 == 1, p3, REMAINDERS[3]);
    MixFrom(p4, p.c7 >> 4, 4);
  }

  lemma Shifts(top: bv5)
    ensures top >> 1 >> 1 == top >> 2 && top >> 2 >> 1 == top >> 3 && top >> 3 >> 1 == top >> 4
  {
  }

  lemma {:induction false} MixFrom(p: Poly, top: bv5, i: nat)
    requires i < 5
    ensures Mix(p, top, REMAINDERS[i..]) == Mix(AddIf(top & 1 == 1, p, REMAINDERS[i]), top >> 1, REMAINDERS[i + 1..])
    ensures Mix(p, top, REMAINDERS[5..]) == p && REMAINDERS[0..] == REMAINDERS
  {
    hide AddIf;
    assert REMAINDERS[i..][1..] == REMAINDERS[i + 1..];
  }

  function Bit(on: bool, value: bv5): bv5 {
    if on then value else 0
  }

  /** What the bits of `top` select among the lowest coefficients. */
  function Selected(top: bv5, remainders: seq<Poly>): bv5
    decreases |remainders|
  {
    if remainders == [] then 0
    else Bit(top & 1 == 1, remainders[0].c0) ^ Selected(top >> 1, remainders[1..])
  }

  lemma XorAssociates(a: bv5, b: bv5, c: bv5)
    ensures a ^ b ^ c == a ^ (b ^ c) && a ^ 0 == a
  {
  }

  lemma AddIfBottom(on: bool, p: Poly, g: Poly)
    ensures AddIf(on, p, g).c0 == p.c0 ^ Bit(on, g.c0)
  {
    XorAssociates(p.c0, 0, 0);
  }

  lemma {:induction false} MixBottom(p: Poly, top: bv5, remainders: seq<Poly>)
    ensures Mix(p, top, remainders).c0 == p.c0 ^ Selected(top, remainders)
    decreases |remainders|
  {
    hide AddIf, Bit;
    if remainders == [] {
      XorAssociates(p.c0, 0, 0);
    } else {
      var on, g, rest := top & 1 == 1, remainders[0], remainders[1..];
      AddIfBottom(on, p, g);
      MixBottom(AddIf(on, p, g), top >> 1, rest);
      XorAssociates(p.c0, Bit(on, g.c0), Selected(top >> 1, rest));
    }
  }

  lemma SelectedNext(top: bv5, k: nat)
    requires k < 5
    ensures Selected(top, REMAINDERS[k..])
         == Bit(top & 1 == 1, REMAINDERS[k].c0) ^ Selected(top >> 1, REMAINDERS[k + 1..])
  {
    hide Bit;
    assert REMAINDERS[k..][1..] == REMAINDERS[k + 1..];
  }

  lemma FiveBits(t: bv5)
    ensures Bit(t & 1 == 1, 1) ^ (Bit((t >> 1) & 1 == 1, 2) ^ (Bit((t >> 1 >> 1) & 1 == 1, 4)
              ^ (Bit((t >> 1 >> 1 >> 1) & 1 == 1, 8) ^ (Bit((t >> 1 >> 1 >> 1 >> 1) & 1 == 1, 16) ^ 0)))) == t
  {
  }

  lemma Bottoms()
    ensures REMAINDERS[0].c0 == 1 && REMAINDERS[1].c0 == 2 && REMAINDERS[2].c0 == 4
    ensures REMAINDERS[3].c0 == 8 && REMAINDERS[4].c0 == 16
    ensures REMAINDERS[0..] == REMAINDERS && REMAINDERS[5..] == []
  {
  }

  /** The lowest coefficients of the remainders are the powers of two. */
  lemma SelectedIsTop(t: bv5)
    ensures Selected(t, REMAINDERS) == t
  {
    hide Bit;
    Bottoms();
    SelectedNext(t, 0);
    SelectedNext(t >> 1, 1);
    SelectedNext(t >> 1 >> 1, 2);
    SelectedNext(t >> 1 >> 1 >> 1, 3);
    SelectedNext(t >> 1 >> 1 >> 1 >> 1, 4);
    FiveBits(t);
  }

  /** The coefficient that leaves at the top comes back at the bottom. */
  lemma StepKeepsTop(p: Poly, v: bv5)
    ensures Step(p, v).c0 == v ^ p.c7
  {
    hide Mix, Selected;
    MixBottom(Shifted(p, v), p.c7, REMAINDERS);
    SelectedIsTop(p.c7);
  }

  /** The step is injective. */
  lemma StepInjective(a: Poly, b: Poly, v: bv5)
    requires Step(a, v) == Step(b, v)
    ensures a == b
  {
    var d := Add(a, b);
    assert v ^ v == 0;
    StepLinear(a, b, v, v);
    AddZero(Step(a, v));
    StepKeepsTop(d, 0);
    assert d.c7 == 0;
    StepShifts(d, 0);
    AddIsZero(a, b);
  }

  // ----- over whole sequences -----

  lemma {:induction false} FoldConcat(p: Poly, a: seq<bv5>, b: seq<bv5>)
    ensures Fold(p, a + b) == Fold(Fold(p, a), b)
    decreases |b|
  {
    if b == [] {
      assert a + b == a;
    } else {
      FoldConcat(p, a, b[..|b| - 1]);
      assert (a + b)[..|a + b| - 1] == a + b[..|b| - 1];
    }
  }

  function Difference(u: seq<bv5>, v: seq<bv5>): (d: seq<bv5>)
    requires |u| == |v|
  {
    seq(|u|, i requires 0 <= i < |u| => u[i] ^ v[i])
  }

  lemma {:induction false} FoldLinear(a: Poly, b: Poly, u: seq<bv5>, v: seq<bv5>)
    requires |u| == |v|
    ensures Fold(Add(a, b), Difference(u, v)) == Add(Fold(a, u), Fold(b, v))
    decreases |u|
  {
    if u != [] {
      var n := |u| - 1;
      FoldLinear(a, b, u[..n], v[..n]);
      assert Difference(u, v)[..n] == Difference(u[..n], v[..n]);
      StepLinear(Fold(a, u[..n]), Fold(b, v[..n]), u[n], v[n]);
    }
  }

  lemma {:induction false} FoldInjective(a: Poly, b: Poly, values: seq<bv5>)
    requires Fold(a, values) == Fold(b, values)
    ensures a == b
    decreases |values|
  {
    if values != [] {
      var n := |values| - 1;
      StepInjective(Fold(a, values[..n]), Fold(b, values[..n]), values[n]);
      FoldInjective(a, b, values[..n]);
    }
  }

  /** Up to eight symbols, taken into an empty state, stand in it unchanged. */
  ghost function Window(w: seq<bv5>): Poly
    requires |w| <= 8
  {
    var at := (i: int) => if 0 <= i < |w| then w[|w| - 1 - i] else 0;
    Poly(at(7), at(6), at(5), at(4), at(3), at(2), at(1), at(0))
  }

  lemma {:induction false} FoldWindow(w: seq<bv5>)
    requires |w| <= 8
    ensures Fold(ZERO, w) == Window(w)
    decreases |w|
  {
    if w != [] {
      var n := |w| - 1;
      FoldWindow(w[..n]);
      StepShifts(Window(w[..n]), w[n]);
    }
  }

  lemma WindowIsZero(w: seq<bv5>)
    requires |w| <= 8 && Window(w) == ZERO
    ensures forall i :: 0 <= i < |w| ==> w[i] == 0
  {
  }

  /** Two sequences that agree outside a window of at most eight symbols, and differ inside
      it, have different remainders, however long they are. */
  lemma BurstDetected(before: seq<bv5>, w1: seq<bv5>, w2: seq<bv5>, after: seq<bv5>)
    requires |w1| == |w2| <= 8 && w1 != w2
    ensures PolyMod(before + w1 + after) != PolyMod(before + w2 + after)
  {
    var p := Fold(ONE, before);
    if PolyMod(before + w1 + after) == PolyMod(before + w2 + after) {
      AddSame(Fold(ONE, before + w1 + after), Fold(ONE, before + w2 + after), ONE);
      FoldConcat(ONE, before + w1, after);
      FoldConcat(ONE, before + w2, after);
      FoldInjective(Fold(ONE, before + w1), Fold(ONE, before + w2), after);
      FoldConcat(ONE, before, w1);
      FoldConcat(ONE, before, w2);
      FoldLinear(p, p, w1, w2);
      AddZero(p);
      AddZero(Fold(p, w1));
      FoldWindow(Difference(w1, w2));
      WindowIsZero(Difference(w1, w2));
      DifferenceIsZero(w1, w2);
      assert false;
    }
  }

  lemma AddSame(a: Poly, b: Poly, c: Poly)
    requires Add(a, c) == Add(b, c)
    ensures a == b
  {
    AddBoth(a, b, c);
    AddZero(Add(a, c));
    AddIsZero(a, b);
  }

  lemma DifferenceIsZero(u: seq<bv5>, v: seq<bv5>)
    requires |u| == |v| && forall i :: 0 <= i < |u| ==> Difference(u, v)[i] == 0
    ensures u == v
  {
    forall i | 0 <= i < |u| ensures u[i] == v[i] {
      assert Difference(u, v)[i] == u[i] ^ v[i];
    }
  }

  // ----- the integer form -----

  function Unpack(c: bv40): Poly {
    Poly(((c >> 35) & 31) as bv5, ((c >> 30) & 31) as bv5, ((c >> 25) & 31) as bv5, ((c >> 20) & 31) as bv5,
         ((c >> 15) & 31) as bv5, ((c >> 10) & 31) as bv5, ((c >> 5) & 31) as bv5, (c & 31) as bv5)
  }

  lemma UnpackXor(a: bv40, b: bv40)
    ensures Unpack(a ^ b) == Add(Unpack(a), Unpack(b))
  {
  }

  lemma UnpackShifted(c: bv40, v: bv8)
    requires v < 32
    ensures var p := Unpack(c);
      Unpack(((c & 0x07ffffffff) << 5) ^ (v as bv40)) == Poly(p.c6, p.c5, p.c4, p.c3, p.c2, p.c1, p.c0, v as bv5)
  {
  }

  lemma UnpackGenerator(i: nat)
    requires i < 5
    ensures Unpack(GENERATOR[i]) == REMAINDERS[i]
  {
  }

  function XorIf(on: bool, c: bv40, g: bv40): bv40 {
    if on then c ^ g else c
  }

  lemma UnpackXorIf(on: bool, c: bv40, g: bv40)
    ensures AddIf(on, Unpack(c), Unpack(g)) == Unpack(XorIf(on, c, g))
  {
    hide Unpack, Add;
    UnpackXor(c, g);
  }

  lemma UnpackAddIf(on: bool, c: bv40, i: nat)
    requires i < 5
    ensures AddIf(on, Unpack(c), REMAINDERS[i]) == Unpack(XorIf(on, c, GENERATOR[i]))
  {
    hide Unpack, AddIf, XorIf;
    UnpackGenerator(i);
    UnpackXorIf(on, c, GENERATOR[i]);
  }

  lemma ShiftOnce(top: bv40, i: nat)
    requires i < 5
    ensures top >> (i + 1) == top >> i >> 1
  {
    if i == 0 {
      assert top >> 1 == top >> 0 >> 1;
    } else if i == 1 {
      assert top >> 2 == top >> 1 >> 1;
    } else if i == 2 {
      assert top >> 3 == top >> 2 >> 1;
    } else if i == 3 {
      assert top >> 4 == top >> 3 >> 1;
    } else {
      assert top >> 5 == top >> 4 >> 1;
    }
  }

  lemma LowBits(t: bv40)
    requires t < 32
    ensures (t & 1 == 1) <==> ((t as bv5) & 1 == 1)
    ensures t >> 1 < 32 && (t >> 1) as bv5 == (t as bv5) >> 1
  {
  }

  /** A byte of the form the codec works with: five bits of payload. */
  function Low5(b: bv8): bv5 {
    (b & 31) as bv5
  }

  function Symbols(bytes: seq<bv8>): (s: seq<bv5>)
    ensures |s| == |bytes|
  {
    seq(|bytes|, i requires 0 <= i < |bytes| => Low5(bytes[i]))
  }

  /** The inner loop of polyMod: the generators selected by the bits shifted out. */
  method FeedBack(shifted: bv40, topBits: bv40) returns (checksum: bv40)
    requires topBits < 32
    ensures Unpack(checksum) == Mix(Unpack(shifted), topBits as bv5, REMAINDERS)
  {
    hide Unpack, AddIf;
    checksum := shifted;
    ghost var t := topBits as bv5;
    assert REMAINDERS[0..] == REMAINDERS;
    assert topBits >> 0 == topBits;
    for i := 0 to |GENERATOR|
      invariant topBits >> i < 32 && (topBits >> i) as bv5 == t
      invariant Mix(Unpack(checksum), t, REMAINDERS[i..]) == Mix(Unpack(shifted), topBits as bv5, REMAINDERS)
    {
      LowBits(topBits >> i);
      ShiftOnce(topBits, i);
      UnpackAddIf(t & 1 == 1, checksum, i);
      if (topBits >> i) & 1 == 1 {
        checksum := checksum ^ GENERATOR[i];
      }
      assert REMAINDERS[i..][1..] == REMAINDERS[i + 1..];
      t := t >> 1;
    }
  }

  /** The outer loop of polyMod: one symbol taken in. */
  method TakeSymbol(c: bv40, value: bv8) returns (checksum: bv40)
    requires value < 32
    ensures Unpack(checksum) == Step(Unpack(c), Low5(value))
  {
    var topBits := c >> 35;
    UnpackTop(c);
    UnpackShifted(c, value);
    assert value as bv5 == Low5(value);
    checksum := FeedBack(((c & 0x07ffffffff) << 5) ^ (value as bv40), topBits);
  }

  /** polyMod, on an integer. */
  method ComputePolyMod(values: seq<bv8>) returns (r: bv40)
    requires forall k :: 0 <= k < |values| ==> values[k] < 32
    ensures Unpack(r) == PolyMod(Symbols(values))
  {
    var checksum: bv40 := 1;
    ghost var symbols := Symbols(values);
    for k := 0 to |values|
      invariant Unpack(checksum) == Fold(ONE, symbols[..k])
    {
      checksum := TakeSymbol(checksum, values[k]);
      assert symbols[..k + 1][..k] == symbols[..k];
    }
    assert symbols[..|values|] == symbols;
    UnpackXor(checksum, 1);
    r := checksum ^ 1;
  }

  lemma UnpackTop(c: bv40)
    ensures c >> 35 < 32 && (c >> 35) as bv5 == Unpack(c).c7
  {
  }

  lemma UnpackZero(c: bv40)
    ensures Unpack(c) == ZERO <==> c == 0
  {
  }

  // ----- a known remainder -----

  lemma {:induction false} NextRemainder(values: seq<bv5>, n: nat, p: Poly)
    requires n < |values| && Fold(ONE, values[..n]) == p
    ensures Fold(ONE, values[..n + 1]) == Step(p, values[n])
  {
    hide Step;
    assert values[..n + 1][..n] == values[..n];
  }

  /** Small symbols are shifted in until the state is full. */
  lemma ShiftedIn()
    ensures Fold(ONE, [1, 0, 15, 0, 0, 0, 0]) == Poly(1, 1, 0, 15, 0, 0, 0, 0)
  {
    hide Fold, Step;
    var v: seq<bv5> := [1, 0, 15, 0, 0, 0, 0];
    FoldNothing(ONE);
    assert v[..0] == [];
    NextRemainder(v, 0, Poly(0, 0, 0, 0, 0, 0, 0, 1));
    StepShifts(Poly(0, 0, 0, 0, 0, 0, 0, 1), v[0]);
    NextRemainder(v, 1, Poly(0, 0, 0, 0, 0, 0, 1, 1));
    StepShifts(Poly(0, 0, 0, 0, 0, 0, 1, 1), v[1]);
    NextRemainder(v, 2, Poly(0, 0, 0, 0, 0, 1, 1, 0));
    StepShifts(Poly(0, 0, 0, 0, 0, 1, 1, 0), v[2]);
    NextRemainder(v, 3, Poly(0, 0, 0, 0, 1, 1, 0, 15));
    StepShifts(Poly(0, 0, 0, 0, 1, 1, 0, 15), v[3]);
    NextRemainder(v, 4, Poly(0, 0, 0, 1, 1, 0, 15, 0));
    StepShifts(Poly(0, 0, 0, 1, 1, 0, 15, 0), v[4]);
    NextRemainder(v, 5, Poly(0, 0, 1, 1, 0, 15, 0, 0));
    StepShifts(Poly(0, 0, 1, 1, 0, 15, 0, 0), v[5]);
    NextRemainder(v, 6, Poly(0, 1, 1, 0, 15, 0, 0, 0));
    StepShifts(Poly(0, 1, 1, 0, 15, 0, 0, 0), v[6]);
    assert v[..7] == v;
  }

  lemma FoldNothing(p: Poly)
    ensures Fold(p, []) == p
  {
  }

  lemma KnownSteps()
    ensures Step(Poly(1, 1, 0, 15, 0, 0, 0, 0), 0) == Poly(18, 3, 22, 11, 25, 3, 19, 1)
    ensures Step(Poly(18, 3, 22, 11, 25, 3, 19, 1), 0) == Poly(15, 9, 23, 27, 31, 12, 13, 18)
    ensures Step(Poly(15, 9, 23, 27, 31, 12, 13, 18), 0) == Poly(30, 6, 17, 13, 6, 28, 5, 15)
    ensures Step(Poly(30, 6, 17, 13, 6, 28, 5, 15), 0) == Poly(1, 26, 25, 11, 8, 14, 8, 30)
    ensures Step(Poly(1, 26, 25, 11, 8, 14, 8, 30), 0) == Poly(9, 26, 18, 3, 23, 11, 13, 1)
  {
    hide Step;
    StepByBits(Poly(1, 1, 0, 15, 0, 0, 0, 0), 0);
    StepByBits(Poly(18, 3, 22, 11, 25, 3, 19, 1), 0);
    StepByBits(Poly(15, 9, 23, 27, 31, 12, 13, 18), 0);
    StepByBits(Poly(30, 6, 17, 13, 6, 28, 5, 15), 0);
    StepByBits(Poly(1, 26, 25, 11, 8, 14, 8, 30), 0);
  }

  /** The remainder for the prefix "a" and version 120 without a payload. */
  lemma KnownRemainder()
    ensures PolyMod([1, 0, 15, 0, 0, 0, 0, 0, 0, 0, 0, 0]) == Poly(9, 26, 18, 3, 23, 11, 13, 0)
  {
    hide Fold, Step;
    var v: seq<bv5> := [1, 0, 15, 0, 0, 0, 0, 0, 0, 0, 0, 0];
    ShiftedIn();
    KnownSteps();
    assert v[..7] == [1, 0, 15, 0, 0, 0, 0];
    NextRemainder(v, 7, Poly(1, 1, 0, 15, 0, 0, 0, 0));
    NextRemainder(v, 8, Poly(18, 3, 22, 11, 25, 3, 19, 1));
    NextRemainder(v, 9, Poly(15, 9, 23, 27, 31, 12, 13, 18));
    NextRemainder(v, 10, Poly(30, 6, 17, 13, 6, 28, 5, 15));
    NextRemainder(v, 11, Poly(1, 26, 25, 11, 8, 14, 8, 30));
    assert v[..12] == v;
  }
}
