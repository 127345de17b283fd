/** util/bech32/bech32.go, convertBits: regrouping a sequence of bytes that hold `fromBits`
    bits each into bytes that hold `toBits` bits each. */
module BitRegrouping {

  /** A number of bits of a byte. */
  type Width = w: bv8 | w <= 8

  function Count(w: Width): (n: nat)
    ensures n <= 8
  {
    w as int
  }

  /** The low `n` bits of `x`, most significant first. */
  function LowBits(x: bv8, n: Width): (bits: seq<bool>)
    ensures |bits| == Count(n)
    decreases Count(n)
  {
    if n == 0 then [] else [(x >> (n - 1)) & 1 == 1] + LowBits(x, n - 1)
  }

  /** The top `n` bits of `x`, most significant first. */
  function TopBits(x: bv8, n: Width): (bits: seq<bool>)
    ensures |bits| == Count(n)
    decreases Count(n)
  {
    if n == 0 then [] else [x >> 7 == 1] + TopBits(x << 1, n - 1)
  }

  /** The byte with the given bits. */
  function FromBits(bits: seq<bool>): bv8 {
    if bits == [] then 0
    else (FromBits(bits[..|bits| - 1]) << 1) | (if bits[|bits| - 1] then 1 else 0)
  }

  // ----- single bytes -----

  /** `x` with the top `k` bits of `b` shifted in. */
  function ShiftedIn(x: bv8, b: bv8, k: Width): bv8 {
    (x << k) | (b >> (8 - k))
  }

  lemma Regroup(a: seq<bool>, b: seq<bool>, c: seq<bool>)
    ensures (a + b) + c == a + (b + c)
  {
  }

  lemma ShiftInOne(x: bv8, bits: seq<bool>, b: bv8)
    requires x == FromBits(bits)
    ensures ShiftedIn(x, b, 1) == FromBits(bits + [b >> 7 == 1])
  {
    var all := bits + [b >> 7 == 1];
    assert all[..|all| - 1] == bits;
    assert b >> 7 == 0 || b >> 7 == 1;
  }

  lemma ShiftedInSplit(x: bv8, b: bv8, k: Width)
    requires 1 <= k
    ensures ShiftedIn(x, b, k) == ShiftedIn(ShiftedIn(x, b, 1), b << 1, k - 1)
  {
  }

  lemma {:induction false} ShiftIn(x: bv8, bits: seq<bool>, b: bv8, k: Width)
    requires x == FromBits(bits)
    ensures ShiftedIn(x, b, k) == FromBits(bits + TopBits(b, k))
    decreases Count(k)
  {
    if k == 0 {
      assert bits + TopBits(b, 0) == bits;
      assert ShiftedIn(x, b, 0) == x;
    } else {
      ShiftInOne(x, bits, b);
      ShiftIn(ShiftedIn(x, b, 1), bits + [b >> 7 == 1], b << 1, k - 1);
      ShiftedInSplit(x, b, k);
      Regroup(bits, [b >> 7 == 1], TopBits(b << 1, k - 1));
    }
  }

  /** Taking the top bits in two portions. */
  lemma {:induction false} TopBitsSplit(b: bv8, k: Width, m: Width)
    requires k + m <= 8
    ensures TopBits(b, k + m) == TopBits(b, k) + TopBits(b << k, m)
    decreases Count(k)
  {
    if k == 0 {
      assert b << 0 == b && k + m == m;
    } else {
      TopBitsSplit(b << 1, k - 1, m);
      ShiftLeftSplit(b, k, m);
      Regroup([b >> 7 == 1], TopBits(b << 1, k - 1), TopBits(b << k, m));
    }
  }

  lemma ShiftLeftSplit(b: bv8, k: Width, m: Width)
    requires 1 <= k && k + m <= 8
    ensures (b << 1) << (k - 1) == b << k && k + m != 0 && (k - 1) + m == (k + m) - 1
  {
  }

  lemma TopBitOfLow(x: bv8, n: Width)
    requires 1 <= n
    ensures ((x << (8 - n)) >> 7 == 1) <==> ((x >> (n - 1)) & 1 == 1)
    ensures x << (8 - n) << 1 == x << (8 - (n - 1))
  {
  }

  /** Discarding all but the low `n` bits. */
  lemma {:induction false} LowBitsAreTop(x: bv8, n: Width)
    ensures TopBits(x << (8 - n), n) == LowBits(x, n)
    decreases Count(n)
  {
    if n > 0 {
      TopBitOfLow(x, n);
      LowBitsAreTop(x, n - 1);
    }
  }

  lemma BitOfAppended(y: bv8, b: bv8, n: Width)
    requires 1 <= n <= 7 && b <= 1
    ensures (((y << 1) | b) >> n) & 1 == (y >> (n - 1)) & 1
  {
  }

  lemma {:induction false} LowBitsAppend(y: bv8, b: bool, n: Width)
    requires n <= 7
    ensures LowBits((y << 1) | (if b then 1 else 0), n + 1) == LowBits(y, n) + [b]
    decreases Count(n)
  {
    var c: bv8 := if b then 1 else 0;
    if n == 0 {
      assert (((y << 1) | c) >> 0) & 1 == c;
    } else {
      BitOfAppended(y, c, n);
      LowBitsAppend(y, b, n - 1);
    }
  }

  /** A byte holds exactly the bits it was made from. */
  lemma {:induction false} FromBitsKeeps(bits: seq<bool>, n: Width)
    requires |bits| == Count(n)
    ensures LowBits(FromBits(bits), n) == bits
    decreases |bits|
  {
    if bits != [] {
      FromBitsKeeps(bits[..|bits| - 1], n - 1);
      LowBitsAppend(FromBits(bits[..|bits| - 1]), bits[|bits| - 1], n - 1);
      assert bits == bits[..|bits| - 1] + [bits[|bits| - 1]];
    }
  }

  // ----- sequences of bytes -----

  /** The low `n` bits of every byte, one after another. */
  function Flatten(data: seq<bv8>, n: Width): seq<bool> {
    if data == [] then [] else Flatten(data[..|data| - 1], n) + LowBits(data[|data| - 1], n)
  }

  function Zeros(n: nat): (bits: seq<bool>)
    ensures |bits| == n
  {
    seq(n, _ => false)
  }

  /** The whole groups of `n` bits. */
  function Groups(bits: seq<bool>, n: nat): seq<bv8>
    requires n > 0
    decreases |bits|
  {
    if |bits| < n then [] else [FromBits(bits[..n])] + Groups(bits[n..], n)
  }

  /** How many zeros complete the last group. */
  function Missing(length: nat, n: nat): nat
    requires n > 0
  {
    if length % n == 0 then 0 else n - length % n
  }

  /** What convertBits computes: the bits of the input, completed with zeros where asked for, in whole groups. */
  function ConvertBits(data: seq<bv8>, fromBits: Width, toBits: Width, pad: bool): seq<bv8>
    requires toBits > 0
  {
    var bits := Flatten(data, fromBits);
    Groups(if pad then bits + Zeros(Missing(|bits|, Count(toBits))) else bits, Count(toBits))
  }

  /** `bits` is made of `n` groups of `width`. */
  ghost predicate Whole(bits: seq<bool>, width: nat, n: nat) {
    |bits| == n * width
  }

  lemma {:induction false} GroupsAppend(bits: seq<bool>, tail: seq<bool>, width: nat, n: nat)
    requires width > 0 && Whole(bits, width, n)
    ensures Groups(bits + tail, width) == Groups(bits, width) + Groups(tail, width)
    decreases n
  {
    if n == 0 {
      assert bits + tail == tail;
    } else {
      WholeRest(bits, width, n);
      GroupsAppend(bits[width..], tail, width, n - 1);
      assert (bits + tail)[..width] == bits[..width];
      assert (bits + tail)[width..] == bits[width..] + tail;
      Concat3([FromBits(bits[..width])], Groups(bits[width..], width), Groups(tail, width));
    }
  }

  lemma Concat3(a: seq<bv8>, b: seq<bv8>, c: seq<bv8>)
    ensures (a + b) + c == a + (b + c)
  {
  }

  lemma GroupsOfOne(group: seq<bool>)
    requires |group| > 0
    ensures Groups(group, |group|) == [FromBits(group)]
  {
    assert group[..|group|] == group;
  }

  // ----- the loop -----

  /** The groups finished so far, and the one being filled. */
  datatype Regrouper = Regrouper(regrouped: seq<bv8>, nextByte: bv8, filledBits: Width)

  /** The bits a regrouper took in: `n` whole groups, and the rest. */
  ghost predicate Holds(r: Regrouper, toBits: Width, whole: seq<bool>, n: nat, rest: seq<bool>)
    requires toBits > 0
  {
    && Whole(whole, Count(toBits), n) && r.regrouped == Groups(whole, Count(toBits))
    && |rest| == Count(r.filledBits) && r.filledBits < toBits && r.nextByte == FromBits(rest)
  }

  /** `r` took in exactly `bits`. */
  ghost predicate TookIn(r: Regrouper, toBits: Width, bits: seq<bool>)
    requires toBits > 0
  {
    exists whole: seq<bool>, n: nat, rest: seq<bool> :: Holds(r, toBits, whole, n, rest) && bits == whole + rest
  }

  lemma CountAdds(a: Width, b: Width)
    requires a + b <= 8
    ensures Count(a + b) == Count(a) + Count(b)
  {
  }

  lemma WidthSplit(a: Width, b: Width)
    requires a <= b
    ensures Count(b - a) == Count(b) - Count(a) && a + (b - a) == b
  {
    CountAdds(a, b - a);
  }

  lemma FillGroup(r: Regrouper, toBits: Width, bits: seq<bool>, b: bv8, k: Width)
    requires toBits > 0 && TookIn(r, toBits, bits) && r.filledBits + k <= toBits
    ensures var next := ShiftedIn(r.nextByte, b, k);
      var r' := if r.filledBits + k == toBits then Regrouper(r.regrouped + [next], 0, 0)
                else Regrouper(r.regrouped, next, r.filledBits + k);
      TookIn(r', toBits, bits + TopBits(b, k))
  {
    hide Groups, FromBits, TopBits, ShiftedIn, Whole;
    var whole: seq<bool>, n: nat, rest: seq<bool> :| Holds(r, toBits, whole, n, rest) && bits == whole + rest;
    var more := rest + TopBits(b, k);
    var next := ShiftedIn(r.nextByte, b, k);
    ShiftIn(r.nextByte, rest, b, k);
    CountAdds(r.filledBits, k);
    Regroup(whole, rest, TopBits(b, k));
    if r.filledBits + k == toBits {
      GroupDone(r, toBits, whole, n, more);
      assert (whole + more) + [] == whole + more;
    } else {
      assert Holds(Regrouper(r.regrouped, next, r.filledBits + k), toBits, whole, n, more);
    }
  }

  lemma GroupDone(r: Regrouper, toBits: Width, whole: seq<bool>, n: nat, more: seq<bool>)
    requires toBits > 0 && Whole(whole, Count(toBits), n) && r.regrouped == Groups(whole, Count(toBits))
    requires |more| == Count(toBits)
    ensures Holds(Regrouper(r.regrouped + [FromBits(more)], 0, 0), toBits, whole + more, n + 1, [])
  {
    hide Groups, Whole;
    GroupsAppend(whole, more, Count(toBits), n);
    GroupsOfOne(more);
    WholeMore(whole, more, Count(toBits), n);
  }

  /** One turn of the inner loop: as many bits as the input has left and the group has room for. */
  method ExtractBits(r: Regrouper, b: bv8, remaining: Width, toBits: Width, ghost bits: seq<bool>)
    returns (r': Regrouper, toExtract: Width)
    requires toBits > 0 && TookIn(r, toBits, bits) && remaining > 0 && r.filledBits < toBits
    ensures 0 < toExtract <= remaining
    ensures TookIn(r', toBits, bits + TopBits(b, toExtract)) && r'.filledBits < toBits
  {
    var remainingToBits := toBits - r.filledBits;
    toExtract := remaining;
    if remainingToBits < toExtract {
      toExtract := remainingToBits;
    }
    FillGroup(r, toBits, bits, b, toExtract);
    var nextByte := (r.nextByte << toExtract) | (b >> (8 - toExtract));
    var filledBits := r.filledBits + toExtract;
    if filledBits == toBits {
      r' := Regrouper(r.regrouped + [nextByte], 0, 0);
    } else {
      r' := Regrouper(r.regrouped, nextByte, filledBits);
    }
  }

  lemma TakeMore(done: seq<bool>, b: bv8, k: Width, remaining: Width)
    requires 0 < k <= remaining
    ensures (done + TopBits(b, k)) + TopBits(b << k, remaining - k) == done + TopBits(b, remaining)
    ensures Count(remaining - k) < Count(remaining)
  {
    TopBitsSplit(b, k, remaining - k);
    assert k + (remaining - k) == remaining;
    Regroup(done, TopBits(b, k), TopBits(b << k, remaining - k));
    CountAdds(k, remaining - k);
  }

  /** The inner loop: one byte of input. */
  method TakeByte(r: Regrouper, x: bv8, fromBits: Width, toBits: Width, ghost bits: seq<bool>) returns (r': Regrouper)
    requires toBits > 0 && TookIn(r, toBits, bits) && r.filledBits < toBits
    ensures TookIn(r', toBits, bits + LowBits(x, fromBits)) && r'.filledBits < toBits
  {
    var b := x << (8 - fromBits);
    LowBitsAreTop(x, fromBits);
    var remainingFromBits := fromBits;
    r' := r;
    ghost var done := bits;
    while remainingFromBits > 0
      invariant remainingFromBits <= 8
      invariant TookIn(r', toBits, done) && r'.filledBits < toBits
      invariant done + TopBits(b, remainingFromBits) == bits + LowBits(x, fromBits)
      decreases Count(remainingFromBits)
    {
      var k;
      r', k := ExtractBits(r', b, remainingFromBits, toBits, done);
      TakeMore(done, b, k, remainingFromBits);
      done := done + TopBits(b, k);
      b := b << k;
      remainingFromBits := remainingFromBits - k;
    }
    assert done + TopBits(b, 0) == done;
  }

  lemma MulAtLeast(a: int, w: nat)
    requires a >= 1
    ensures a * w >= w
  {
    assert a * w == (a - 1) * w + w;
  }

  lemma DivisionIsUnique(w: nat, n: int, f: nat, q: int, r: nat)
    requires n * w + f == q * w + r && f < w && r < w
    ensures f == r
  {
    assert (n - q) * w == r - f;
    if n > q {
      MulAtLeast(n - q, w);
    } else if q > n {
      assert (q - n) * w == f - r;
      MulAtLeast(q - n, w);
    }
  }

  lemma ModWhole(n: nat, w: nat, f: nat)
    requires f < w
    ensures (n * w + f) % w == f
  {
    var x := n * w + f;
    DivisionIsUnique(w, n, f, x / w, x % w);
  }

  lemma WholeRest(bits: seq<bool>, w: nat, n: nat)
    requires n > 0 && Whole(bits, w, n)
    ensures |bits| >= w && Whole(bits[w..], w, n - 1)
  {
    assert n * w == (n - 1) * w + w;
  }

  lemma {:induction false} TopBitsOfZero(k: Width)
    ensures TopBits(0, k) == Zeros(Count(k))
    decreases Count(k)
  {
    if k > 0 {
      TopBitsOfZero(k - 1);
      CountAdds(1, k - 1);
    }
  }

  /** The end of convertBits without padding: an unfinished group is dropped. */
  lemma FinishCut(r: Regrouper, toBits: Width, bits: seq<bool>)
    requires toBits > 0 && TookIn(r, toBits, bits)
    ensures Groups(bits, Count(toBits)) == r.regrouped
  {
    var whole: seq<bool>, n: nat, rest: seq<bool> :| Holds(r, toBits, whole, n, rest) && bits == whole + rest;
    GroupsAppend(whole, rest, Count(toBits), n);
  }

  /** The end of convertBits with padding: an unfinished group is completed with zeros. */
  lemma FinishPadded(r: Regrouper, toBits: Width, bits: seq<bool>)
    requires toBits > 0 && TookIn(r, toBits, bits) && r.filledBits < toBits
    ensures Groups(bits + Zeros(Missing(|bits|, Count(toBits))), Count(toBits))
         == if r.filledBits > 0 then r.regrouped + [r.nextByte << (toBits - r.filledBits)] else r.regrouped
  {
    hide Groups, FromBits, Zeros;
    var whole: seq<bool>, n: nat, rest: seq<bool> :| Holds(r, toBits, whole, n, rest) && bits == whole + rest;
    var w := Count(toBits);
    ModWhole(n, w, |rest|);
    if r.filledBits > 0 {
      WidthSplit(r.filledBits, toBits);
      FinishGroup(r, toBits, rest);
      Regroup(whole, rest, Zeros(w - |rest|));
      GroupsAppend(whole, rest + Zeros(w - |rest|), w, n);
    } else {
      assert bits + Zeros(0) == whole;
    }
  }

  lemma FinishGroup(r: Regrouper, toBits: Width, rest: seq<bool>)
    requires 0 < r.filledBits < toBits && |rest| == Count(r.filledBits) <= Count(toBits) && r.nextByte == FromBits(rest)
    ensures Groups(rest + Zeros(Count(toBits) - |rest|), Count(toBits)) == [r.nextByte << (toBits - r.filledBits)]
  {
    WidthSplit(r.filledBits, toBits);
    PadByte(r.nextByte, rest, toBits - r.filledBits);
    GroupsOfOne(rest + Zeros(Count(toBits - r.filledBits)));
  }

  lemma PadByte(x: bv8, bits: seq<bool>, k: Width)
    requires x == FromBits(bits)
    ensures x << k == FromBits(bits + Zeros(Count(k)))
  {
    ShiftIn(x, bits, 0, k);
    TopBitsOfZero(k);
    assert ShiftedIn(x, 0, k) == x << k;
  }

  /** convertBits computes what it should for every pair of widths. */
  method RegroupBits(data: seq<bv8>, fromBits: Width, toBits: Width, pad: bool) returns (regrouped: seq<bv8>)
    requires toBits > 0
    ensures regrouped == ConvertBits(data, fromBits, toBits, pad)
  {
    var r := Regrouper([], 0, 0);
    assert Holds(r, toBits, [], 0, []);
    for k := 0 to |data|
      invariant TookIn(r, toBits, Flatten(data[..k], fromBits)) && r.filledBits < toBits
    {
      r := TakeByte(r, data[k], fromBits, toBits, Flatten(data[..k], fromBits));
      assert data[..k + 1][..k] == data[..k];
    }
    assert data[..|data|] == data;
    FinishCut(r, toBits, Flatten(data, fromBits));
    FinishPadded(r, toBits, Flatten(data, fromBits));
    regrouped := r.regrouped;
    if pad && r.filledBits > 0 {
      regrouped := regrouped + [r.nextByte << (toBits - r.filledBits)];
    }
  }

  // ----- regrouping loses nothing -----

  lemma {:induction false} FlattenConcat(a: seq<bv8>, b: seq<bv8>, n: Width)
    ensures Flatten(a + b, n) == Flatten(a, n) + Flatten(b, n)
    decreases |b|
  {
    if b == [] {
      assert a + b == a;
    } else {
      FlattenConcat(a, b[..|b| - 1], n);
      assert (a + b)[..|a + b| - 1] == a + b[..|b| - 1];
      Regroup(Flatten(a, n), Flatten(b[..|b| - 1], n), LowBits(b[|b| - 1], n));
    }
  }

  lemma FlattenOne(x: bv8, n: Width)
    ensures Flatten([x], n) == LowBits(x, n)
  {
    assert [x][..0] == [];
  }

  lemma FlattenFirst(group: seq<bool>, groups: seq<bv8>, width: Width)
    requires |group| == Count(width)
    ensures Flatten([FromBits(group)] + groups, width) == group + Flatten(groups, width)
  {
    FlattenConcat([FromBits(group)], groups, width);
    FlattenOne(FromBits(group), width);
    FromBitsKeeps(group, width);
  }

  /** The groups, put one after another, are the bits they came from. */
  lemma {:induction false} FlattenGroups(bits: seq<bool>, width: Width, n: nat)
    requires width > 0 && Whole(bits, Count(width), n)
    ensures Flatten(Groups(bits, Count(width)), width) == bits
    decreases n
  {
    var w := Count(width);
    if n > 0 {
      WholeRest(bits, w, n);
      FlattenGroups(bits[w..], width, n - 1);
      FlattenFirst(bits[..w], Groups(bits[w..], w), width);
      assert bits[..w] + bits[w..] == bits;
    }
  }

  lemma ByteFromBits(x: bv8)
    ensures FromBits(LowBits(x, 8)) == x
  {
    ShiftIn(0, [], x, 8);
    LowBitsAreTop(x, 8);
    assert x << 0 == x && [] + TopBits(x, 8) == TopBits(x, 8);
    assert ShiftedIn(0, x, 8) == x;
  }

  lemma NoBits()
    ensures Groups([], 8) == [] && Whole([], 8, 0)
  {
  }

  lemma WholeMore(bits: seq<bool>, group: seq<bool>, width: nat, n: nat)
    requires Whole(bits, width, n) && |group| == width
    ensures Whole(bits + group, width, n + 1)
  {
    OneMore(n + 1, width);
  }

  lemma {:induction false} GroupsFlatten(data: seq<bv8>)
    ensures Groups(Flatten(data, 8), 8) == data && Whole(Flatten(data, 8), 8, |data|)
    decreases |data|
  {
    hide Groups, FromBits, LowBits, Whole;
    if data == [] {
      NoBits();
    } else if data != [] {
      var n := |data| - 1;
      GroupsFlatten(data[..n]);
      WholeMore(Flatten(data[..n], 8), LowBits(data[n], 8), 8, n);
      GroupsAppend(Flatten(data[..n], 8), LowBits(data[n], 8), 8, n);
      GroupsOfOne(LowBits(data[n], 8));
      ByteFromBits(data[n]);
      assert data == data[..n] + [data[n]];
    }
  }

  lemma GroupsOfFew(bits: seq<bool>, width: nat)
    requires |bits| < width
    ensures Groups(bits, width) == []
  {
  }

  lemma PaddedIsWhole(bits: seq<bool>, width: nat)
    requires width > 0
    ensures var padded := bits + Zeros(Missing(|bits|, width)); Whole(padded, width, |padded| / width)
  {
    var length, q, r := |bits|, |bits| / width, |bits| % width;
    assert length == q * width + r;
    if r > 0 {
      OneMore(q + 1, width);
      ModWhole(q + 1, width, 0);
    }
  }

  /** From eight bits to five and back is the identity on every sequence of bytes. */
  lemma EightToFiveToEight(data: seq<bv8>)
    ensures ConvertBits(ConvertBits(data, 8, 5, true), 5, 8, false) == data
  {
    hide Groups, Flatten, Whole;
    var bits := Flatten(data, 8);
    var p := Missing(|bits|, 5);
    var padded := bits + Zeros(p);
    GroupsFlatten(data);
    PaddedIsWhole(bits, 5);
    FlattenGroups(padded, 5, |padded| / 5);
    GroupsAppend(bits, Zeros(p), 8, |data|);
    GroupsOfFew(Zeros(p), 8);
  }

  /** A byte made of fewer than eight bits is as small as they say. */
  lemma TopFive(x: bv8)
    ensures LowBits(x, 8)[..5] == TopBits(x, 5) && FromBits(TopBits(x, 5)) == x >> 3
  {
    LowBitsAreTop(x, 8);
    assert x << 0 == x;
    TopBitsSplit(x, 5, 3);
    ShiftIn(0, [], x, 5);
    assert [] + TopBits(x, 5) == TopBits(x, 5);
    assert ShiftedIn(0, x, 5) == x >> 3;
  }

  /** Regrouped from eight bits to five, the first symbol holds the top five bits of the first byte. */
  lemma FirstSymbol(data: seq<bv8>)
    requires data != []
    ensures ConvertBits(data, 8, 5, true) != [] && ConvertBits(data, 8, 5, true)[0] == data[0] >> 3
  {
    hide LowBits, TopBits, FromBits;
    var bits := Flatten(data, 8);
    FlattenConcat([data[0]], data[1..], 8);
    FlattenOne(data[0], 8);
    assert data == [data[0]] + data[1..];
    TopFive(data[0]);
    var padded := bits + Zeros(Missing(|bits|, 5));
    assert padded[..5] == LowBits(data[0], 8)[..5];
  }

  /** Version 120 without a payload: 01111 and 000, completed with two zeros. */
  lemma ExampleSymbols()
    ensures ConvertBits([120], 8, 5, true) == [15, 0]
  {
    hide LowBits, FromBits;
    var bits := Flatten([120], 8);
    FlattenOne(120, 8);
    ExampleBits();
    var padded := bits + Zeros(Missing(|bits|, 5));
    assert padded[..5] == [false, true, true, true, true] && padded[5..] == [false, false, false, false, false];
    assert padded[5..][5..] == [] && padded[5..][..5] == padded[5..];
    assert Groups(padded[5..], 5) == [0] + Groups([], 5);
    assert Groups(padded, 5) == [15] + Groups(padded[5..], 5);
  }

  lemma {:induction false} BitMore(bits: seq<bool>, b: bool, all: seq<bool>)
    requires all == bits + [b]
    ensures FromBits(all) == (FromBits(bits) << 1) | (if b then 1 else 0)
  {
    assert all[..|bits|] == bits;
  }

  lemma ExampleBits()
    ensures LowBits(120, 8) == [false, true, true, true, true, false, false, false]
    ensures FromBits([false, true, true, true, true]) == 15 && FromBits([false, false, false, false, false]) == 0
  {
    hide FromBits;
    NothingFromBits();
    BitMore([], false, [false]);
    BitMore([false], true, [false, true]);
    BitMore([false, true], true, [false, true, true]);
    BitMore([false, true, true], true, [false, true, true, true]);
    BitMore([false, true, true, true], true, [false, true, true, true, true]);
    BitMore([false], false, [false, false]);
    BitMore([false, false], false, [false, false, false]);
    BitMore([false, false, false], false, [false, false, false, false]);
    BitMore([false, false, false, false], false, [false, false, false, false, false]);
  }

  lemma NothingFromBits()
    ensures FromBits([]) == 0
  {
  }

  lemma {:induction false} FromBitsSmall(bits: seq<bool>, n: Width)
    requires |bits| == Count(n) && n <= 7
    ensures FromBits(bits) < 1 << n
    decreases |bits|
  {
    if bits == [] {
      assert (1 as bv8) << 0 == 1;
    } else {
      FromBitsSmall(bits[..|bits| - 1], n - 1);
      AppendSmall(FromBits(bits[..|bits| - 1]), if bits[|bits| - 1] then 1 else 0, n);
    }
  }

  lemma AppendSmall(y: bv8, b: bv8, n: Width)
    requires 1 <= n <= 7 && b <= 1 && y < 1 << (n - 1)
    ensures (y << 1) | b < 1 << n
  {
  }

  lemma {:induction false} GroupsSmall(bits: seq<bool>, n: Width)
    requires 1 <= n <= 7
    ensures forall k :: 0 <= k < |Groups(bits, Count(n))| ==> Groups(bits, Count(n))[k] < 1 << n
    decreases |bits|
  {
    if |bits| >= Count(n) {
      FromBitsSmall(bits[..Count(n)], n);
      GroupsSmall(bits[Count(n)..], n);
    }
  }

  /** Regrouping into fewer bytes than one leaves nothing. */
  lemma FiveToEightIsEmpty(data: seq<bv8>)
    ensures ConvertBits(data, 5, 8, false) == [] <==> |data| <= 1
  {
    FlattenLength(data, 5);
  }

  lemma OneMore(n: nat, w: nat)
    requires n >= 1
    ensures (n - 1) * w + w == n * w
  {
  }

  lemma {:induction false} FlattenLength(data: seq<bv8>, n: Width)
    ensures |Flatten(data, n)| == |data| * Count(n)
    decreases |data|
  {
    hide LowBits;
    if data != [] {
      FlattenLength(data[..|data| - 1], n);
      OneMore(|data|, Count(n));
    }
  }
}
