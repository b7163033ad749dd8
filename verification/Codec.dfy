/** Length-prefixed byte encodings (src/ValueSerializationHelper.cpp).

    The first part says what the bytes are and how they are read; the classes at
    the end are the helpers themselves, which append to a buffer and advance an
    offset in place.
 */
module Codec {
  import opened Bytes

  // -------------------------------------------------------------- writing

  /** The low `width` bytes of `n`, least significant first. */
  function LittleEndian(n: nat, width: nat): (b: seq<byte>)
    ensures |b| == width
  {
    if width == 0 then [] else [n % 256] + LittleEndian(n / 256, width - 1)
  }

  function FromLittleEndian(b: seq<byte>): nat {
    if b == [] then 0 else b[0] + 256 * FromLittleEndian(b[1..])
  }

  /** A `size_t` as its eight bytes in memory. */
  function EncSize(n: nat): (b: seq<byte>)
    ensures |b| == 8
  {
    LittleEndian(n, 8)
  }

  function EncString(s: Str): seq<byte> {
    EncSize(|s|) + s
  }

  function EncStrings(ss: seq<Str>): seq<byte> {
    if ss == [] then [] else EncString(ss[0]) + EncStrings(ss[1..])
  }

  function EncVector(ss: seq<Str>): seq<byte> {
    EncSize(|ss|) + EncStrings(ss)
  }

  function EncPair(p: (Str, Str)): seq<byte> {
    EncString(p.0) + EncString(p.1)
  }

  function EncPairs(ps: seq<(Str, Str)>): seq<byte> {
    if ps == [] then [] else EncPair(ps[0]) + EncPairs(ps[1..])
  }

  /** A map written in the order `ps` in which its entries are enumerated. */
  function EncMap(ps: seq<(Str, Str)>): seq<byte> {
    EncSize(|ps|) + EncPairs(ps)
  }

  // -------------------------------------------------------------- reading

  datatype Read<+T> = Fail | Got(value: T, next: nat)

  function ReadSize(b: seq<byte>, o: nat): Read<nat> {
    if o + 8 > |b| then Fail else Got(FromLittleEndian(b[o..o + 8]), o + 8)
  }

  function ReadString(b: seq<byte>, o: nat): Read<Str> {
    match ReadSize(b, o)
    case Fail => Fail
    case Got(len, p) => if p + len > |b| then Fail else Got(b[p..p + len], p + len)
  }

  /** Read `n` strings, appending them to `acc`. */
  function ReadStrings(b: seq<byte>, o: nat, n: nat, acc: seq<Str>): Read<seq<Str>>
    decreases n
  {
    if n == 0 then Got(acc, o)
    else match ReadString(b, o)
         case Fail => Fail
         case Got(s, p) => ReadStrings(b, p, n - 1, acc + [s])
  }

  function ReadVector(b: seq<byte>, o: nat, acc: seq<Str>): Read<seq<Str>> {
    match ReadSize(b, o)
    case Fail => Fail
    case Got(n, p) => ReadStrings(b, p, n, acc)
  }

  /** Read `n` key-value pairs, storing them into `acc`. */
  function ReadPairs(b: seq<byte>, o: nat, n: nat, acc: map<Str, Str>): Read<map<Str, Str>>
    decreases n
  {
    if n == 0 then Got(acc, o)
    else match ReadString(b, o)
         case Fail => Fail
         case Got(k, p) =>
           match ReadString(b, p)
           case Fail => Fail
           case Got(v, q) => ReadPairs(b, q, n - 1, acc[k := v])
  }

  function ReadMap(b: seq<byte>, o: nat, acc: map<Str, Str>): Read<map<Str, Str>> {
    match ReadSize(b, o)
    case Fail => Fail
    case Got(n, p) => ReadPairs(b, p, n, acc)
  }

  /** Storing the pairs of `ps` into `acc` one after the other. */
  function StoreAll(acc: map<Str, Str>, ps: seq<(Str, Str)>): map<Str, Str>
    decreases |ps|
  {
    if ps == [] then acc else StoreAll(acc[ps[0].0 := ps[0].1], ps[1..])
  }

  // ---------------------------------------------------------- enumerations

  /** `ks` lists every element of `s` once, as iterating over a container does. */
  ghost predicate Enumerates<T>(ks: seq<T>, s: set<T>) {
    && (forall k :: k in s ==> k in ks)
    && (forall k :: k in ks ==> k in s)
    && (forall i, j :: 0 <= i < j < |ks| ==> ks[i] != ks[j])
  }

  /** `ps` lists the entries of `m`, each once. */
  ghost predicate EnumeratesMap(ps: seq<(Str, Str)>, m: map<Str, Str>) {
    && (forall k :: k in m ==> (k, m[k]) in ps)
    && (forall i :: 0 <= i < |ps| ==> ps[i].0 in m && m[ps[i].0] == ps[i].1)
    && (forall i, j :: 0 <= i < j < |ps| ==> ps[i].0 != ps[j].0)
  }

  lemma {:induction false} StoreAllReaches(acc: map<Str, Str>, ps: seq<(Str, Str)>)
    requires forall i, j :: 0 <= i < j < |ps| ==> ps[i].0 != ps[j].0
    ensures StoreAll(acc, ps).Keys == acc.Keys + (set p | p in ps :: p.0)
    ensures forall p :: p in ps ==> p.0 in StoreAll(acc, ps) && StoreAll(acc, ps)[p.0] == p.1
    ensures forall k :: k in acc && (forall p :: p in ps ==> p.0 != k) ==> StoreAll(acc, ps)[k] == acc[k]
    decreases |ps|
  {
    if ps != [] {
      var rest := ps[1..];
      StoreAllReaches(acc[ps[0].0 := ps[0].1], rest);
      assert forall p :: p in ps <==> p == ps[0] || p in rest;
    }
  }

  /** Whatever the order of enumeration, storing the entries rebuilds the map. */
  lemma StoringAnEnumeration(ps: seq<(Str, Str)>, m: map<Str, Str>)
    requires EnumeratesMap(ps, m)
    ensures StoreAll(map[], ps) == m
  {
    StoreAllReaches(map[], ps);
    var r := StoreAll(map[], ps);
    forall k | k in m ensures k in r && r[k] == m[k] { assert (k, m[k]) in ps; }
    forall k | k in r ensures k in m { var p :| p in ps && p.0 == k; }
  }

  // ------------------------------------------------------------ round trip

  ghost predicate FitsString(s: Str) {
    |s| < TWO64
  }

  ghost predicate FitsStrings(ss: seq<Str>) {
    |ss| < TWO64 && forall s :: s in ss ==> FitsString(s)
  }

  ghost predicate FitsPairs(ps: seq<(Str, Str)>) {
    |ps| < TWO64 && forall p :: p in ps ==> FitsString(p.0) && FitsString(p.1)
  }

  function Pow256(w: nat): nat {
    if w == 0 then 1 else 256 * Pow256(w - 1)
  }

  lemma {:induction false} LittleEndianRoundTrip(n: nat, w: nat)
    requires n < Pow256(w)
    ensures FromLittleEndian(LittleEndian(n, w)) == n
  {
    if w > 0 {
      LittleEndianRoundTrip(n / 256, w - 1);
    }
  }

  lemma SizeRoundTrip(n: nat)
    requires n < TWO64
    ensures FromLittleEndian(EncSize(n)) == n
  {
    assert Pow256(4) == 0x1_0000_0000;
    assert Pow256(8) == TWO64;
    LittleEndianRoundTrip(n, 8);
  }

  /** The bytes `e` stand at offset `o` of `b`, whatever is before and after. */
  ghost predicate At(b: seq<byte>, o: nat, e: seq<byte>) {
    o + |e| <= |b| && b[o..o + |e|] == e
  }

  /** `b` ends at a proper prefix of `e` that starts at offset `o`. */
  ghost predicate Cut(b: seq<byte>, o: nat, e: seq<byte>) {
    o <= |b| < o + |e| && b[o..] == e[..|b| - o]
  }

  // ---------------------------------------------------------------- layout

  /** The eight bytes of a size, least significant first. */
  lemma SizeBytes(n: nat)
    requires n < TWO64
    ensures EncSize(n) == [n % 256, n / 0x100 % 256, n / 0x1_0000 % 256, n / 0x100_0000 % 256,
                           n / 0x1_0000_0000 % 256, n / 0x100_0000_0000 % 256,
                           n / 0x1_0000_0000_0000 % 256, n / 0x100_0000_0000_0000 % 256]
  {
    var upper := n / 0x1_0000_0000;
    FourBytes(n, 4);
    FourBytes(upper, 0);
    assert LittleEndian(upper / 0x1_0000_0000, 0) == [];
    assert n / 0x100_0000_0000 == upper / 0x100 && n / 0x1_0000_0000_0000 == upper / 0x1_0000
           && n / 0x100_0000_0000_0000 == upper / 0x100_0000;
  }

  lemma FourBytes(n: nat, width: nat)
    ensures LittleEndian(n, width + 4)
         == [n % 256, n / 0x100 % 256, n / 0x1_0000 % 256, n / 0x100_0000 % 256]
            + LittleEndian(n / 0x1_0000_0000, width)
  {
    hide LittleEndian;
    TwoBytes(n, width + 2);
    TwoBytes(n / 0x1_0000, width);
    UpperPart(n);
  }

  lemma UpperPart(n: nat)
    ensures n / 0x1_0000 / 0x100 == n / 0x100_0000 && n / 0x1_0000 / 0x1_0000 == n / 0x1_0000_0000
  {
  }

  lemma TwoBytes(n: nat, width: nat)
    ensures LittleEndian(n, width + 2) == [n % 256, n / 0x100 % 256] + LittleEndian(n / 0x1_0000, width)
  {
    hide LittleEndian;
    OneByte(n, width + 1);
    OneByte(n / 256, width);
    TwiceBy256(n);
  }

  lemma OneByte(n: nat, width: nat)
    ensures LittleEndian(n, width + 1) == [n % 256] + LittleEndian(n / 256, width)
  {
  }

  lemma TwiceBy256(n: nat)
    ensures n / 256 / 256 == n / 0x1_0000
  {
  }

  /** A string is its length and then its bytes. */
  lemma StringBytes(s: Str)
    ensures EncString(s) == EncSize(|s|) + s && |EncString(s)| == 8 + |s|
  {
  }

  /** Where the i-th string of a vector starts, behind the size. */
  function VectorOffset(ss: seq<Str>, i: nat): nat
    requires i <= |ss|
  {
    if i == 0 then 0 else VectorOffset(ss, i - 1) + 8 + |ss[i - 1]|
  }

  /** A vector is its size and then its strings in order, without gaps. */
  lemma {:induction false} VectorBytes(ss: seq<Str>, i: nat)
    requires i < |ss|
    ensures At(EncVector(ss), 0, EncSize(|ss|)) && At(EncVector(ss), 8 + VectorOffset(ss, i), EncString(ss[i]))
    ensures |EncVector(ss)| == 8 + VectorOffset(ss, |ss|)
  {
    hide EncSize, EncString;
    StringsBytes(ss, i);
    AllStringsLength(ss);
    assert EncVector(ss)[..8] == EncSize(|ss|);
    AtLater(EncSize(|ss|), EncStrings(ss), VectorOffset(ss, i), EncString(ss[i]));
  }

  lemma AtLater(x: seq<byte>, y: seq<byte>, o: nat, e: seq<byte>)
    requires At(y, o, e)
    ensures At(x + y, |x| + o, e)
  {
    assert (x + y)[|x| + o..|x| + o + |e|] == y[o..o + |e|];
  }

  lemma {:induction false} OffsetShift(ss: seq<Str>, i: nat)
    requires 0 < i <= |ss|
    ensures VectorOffset(ss, i) == 8 + |ss[0]| + VectorOffset(ss[1..], i - 1)
  {
    if i > 1 { OffsetShift(ss, i - 1); }
  }

  lemma {:induction false} StringsBytes(ss: seq<Str>, i: nat)
    requires i < |ss|
    ensures At(EncStrings(ss), VectorOffset(ss, i), EncString(ss[i]))
  {
    hide EncSize, EncString;
    StringBytes(ss[0]);
    if i == 0 {
      assert EncStrings(ss)[..|EncString(ss[0])|] == EncString(ss[0]);
    } else {
      StringsBytes(ss[1..], i - 1);
      OffsetShift(ss, i);
      AtLater(EncString(ss[0]), EncStrings(ss[1..]), VectorOffset(ss[1..], i - 1), EncString(ss[i]));
    }
  }

  lemma {:induction false} AllStringsLength(ss: seq<Str>)
    ensures |EncStrings(ss)| == VectorOffset(ss, |ss|)
  {
    hide EncString;
    if ss != [] {
      StringBytes(ss[0]);
      AllStringsLength(ss[1..]);
      OffsetShift(ss, |ss|);
    }
  }

  /** Keys and values of a list of pairs, in turn. */
  function Flattened(ps: seq<(Str, Str)>): seq<Str> {
    if ps == [] then [] else [ps[0].0, ps[0].1] + Flattened(ps[1..])
  }

  /** A map is the number of its entries and then key, value, key, value: the strings of the
      flattened list as a vector has them. */
  lemma MapBytes(ps: seq<(Str, Str)>)
    ensures EncMap(ps) == EncSize(|ps|) + EncStrings(Flattened(ps))
  {
    hide EncSize, EncString;
    PairsBytes(ps);
  }

  lemma {:induction false} PairsBytes(ps: seq<(Str, Str)>)
    ensures EncPairs(ps) == EncStrings(Flattened(ps))
  {
    hide EncString;
    if ps != [] {
      PairsBytes(ps[1..]);
      var rest := Flattened(ps[1..]);
      assert ([ps[0].0, ps[0].1] + rest)[1..] == [ps[0].1] + rest && ([ps[0].1] + rest)[1..] == rest;
      assert EncString(ps[0].0) + EncString(ps[0].1) + EncStrings(rest)
          == EncString(ps[0].0) + (EncString(ps[0].1) + EncStrings(rest));
    }
  }

  lemma AtSplit(b: seq<byte>, o: nat, x: seq<byte>, y: seq<byte>)
    requires At(b, o, x + y)
    ensures At(b, o, x) && At(b, o + |x|, y)
  {
    var e := b[o..o + |x + y|];
    assert e[..|x|] == x && e[|x|..] == y;
    assert b[o..o + |x|] == e[..|x|] && b[o + |x|..o + |x| + |y|] == e[|x|..];
  }

  lemma CutSplit(b: seq<byte>, o: nat, x: seq<byte>, y: seq<byte>)
    requires Cut(b, o, x + y)
    ensures Cut(b, o, x) || (At(b, o, x) && Cut(b, o + |x|, y))
  {
    var e := b[o..];
    if |e| < |x| {
      assert (x + y)[..|e|] == x[..|e|];
    } else {
      assert (x + y)[..|e|] == x + y[..|e| - |x|];
      assert e[..|x|] == x && e[|x|..] == y[..|e| - |x|];
      assert b[o..o + |x|] == e[..|x|] && b[o + |x|..] == e[|x|..];
    }
  }

  lemma ReadSizeAt(b: seq<byte>, o: nat, n: nat)
    requires n < TWO64 && At(b, o, EncSize(n))
    ensures ReadSize(b, o) == Got(n, o + 8)
  {
    SizeRoundTrip(n);
  }

  lemma ReadStringAt(b: seq<byte>, o: nat, s: Str)
    requires FitsString(s) && At(b, o, EncString(s))
    ensures ReadString(b, o) == Got(s, o + |EncString(s)|)
  {
    AtSplit(b, o, EncSize(|s|), s);
    ReadSizeAt(b, o, |s|);
  }

  lemma {:induction false} ReadStringsAt(b: seq<byte>, o: nat, ss: seq<Str>, acc: seq<Str>)
    requires FitsStrings(ss) && At(b, o, EncStrings(ss))
    ensures ReadStrings(b, o, |ss|, acc) == Got(acc + ss, o + |EncStrings(ss)|)
    decreases |ss|
  {
    hide At, EncString, ReadString, FitsString;
    if ss == [] {
      assert acc + [] == acc;
    } else {
      AtSplit(b, o, EncString(ss[0]), EncStrings(ss[1..]));
      ReadStringAt(b, o, ss[0]);
      ReadStringsAt(b, o + |EncString(ss[0])|, ss[1..], acc + [ss[0]]);
      assert acc + [ss[0]] + ss[1..] == acc + ss;
    }
  }

  lemma ReadPairAt(b: seq<byte>, o: nat, p: (Str, Str), n: nat, acc: map<Str, Str>)
    requires FitsString(p.0) && FitsString(p.1) && At(b, o, EncPair(p))
    ensures ReadPairs(b, o, n + 1, acc) == ReadPairs(b, o + |EncPair(p)|, n, acc[p.0 := p.1])
  {
    hide At, EncString, ReadString, FitsString;
    AtSplit(b, o, EncString(p.0), EncString(p.1));
    ReadStringAt(b, o, p.0);
    ReadStringAt(b, o + |EncString(p.0)|, p.1);
  }

  lemma NoPairs(b: seq<byte>, o: nat, acc: map<Str, Str>)
    ensures ReadPairs(b, o, 0, acc) == Got(acc, o)
  {
  }

  lemma {:induction false} ReadPairsAt(b: seq<byte>, o: nat, ps: seq<(Str, Str)>, acc: map<Str, Str>)
    requires FitsPairs(ps) && At(b, o, EncPairs(ps))
    ensures ReadPairs(b, o, |ps|, acc) == Got(StoreAll(acc, ps), o + |EncPairs(ps)|)
    decreases |ps|
  {
    hide EncPair, ReadPairs, FromLittleEndian;
    if ps == [] {
      NoPairs(b, o, acc);
    } else {
      AtSplit(b, o, EncPair(ps[0]), EncPairs(ps[1..]));
      ReadPairAt(b, o, ps[0], |ps| - 1, acc);
      ReadPairsAt(b, o + |EncPair(ps[0])|, ps[1..], acc[ps[0].0 := ps[0].1]);
    }
  }

  /** Reading a vector wherever it stands gives it back and ends exactly behind it. */
  lemma ReadVectorAt(b: seq<byte>, o: nat, ss: seq<Str>)
    requires FitsStrings(ss) && At(b, o, EncVector(ss))
    ensures ReadVector(b, o, []) == Got(ss, o + |EncVector(ss)|)
  {
    AtSplit(b, o, EncSize(|ss|), EncStrings(ss));
    ReadSizeAt(b, o, |ss|);
    ReadStringsAt(b, o + 8, ss, []);
    assert [] + ss == ss;
  }

  /** Reading a map, written in any order, gives it back and ends exactly behind it. */
  lemma ReadMapAt(b: seq<byte>, o: nat, ps: seq<(Str, Str)>, m: map<Str, Str>)
    requires FitsPairs(ps) && EnumeratesMap(ps, m) && At(b, o, EncMap(ps))
    ensures ReadMap(b, o, map[]) == Got(m, o + |EncMap(ps)|)
  {
    AtSplit(b, o, EncSize(|ps|), EncPairs(ps));
    ReadSizeAt(b, o, |ps|);
    ReadPairsAt(b, o + 8, ps, map[]);
    StoringAnEnumeration(ps, m);
  }

  lemma {:induction false} StoreAllKeepsLast(acc: map<Str, Str>, ps: seq<(Str, Str)>, k: Str)
    ensures k in StoreAll(acc, ps) <==> k in acc || exists i :: 0 <= i < |ps| && ps[i].0 == k
    ensures (forall i :: 0 <= i < |ps| ==> ps[i].0 != k) && k in acc ==> StoreAll(acc, ps)[k] == acc[k]
    ensures forall i :: 0 <= i < |ps| && ps[i].0 == k && (forall j :: i < j < |ps| ==> ps[j].0 != k) ==>
              StoreAll(acc, ps)[k] == ps[i].1
    decreases |ps|
  {
    if ps != [] {
      var rest := ps[1..];
      StoreAllKeepsLast(acc[ps[0].0 := ps[0].1], rest, k);
      assert forall i :: 0 < i < |ps| ==> ps[i] == rest[i - 1];
    }
  }

  /** A map read from any entries, keys repeated or not: each key has the value of its last
      entry, there is no other key, and the read ends exactly behind the entries. */
  lemma ReadMapKeepsLast(b: seq<byte>, o: nat, ps: seq<(Str, Str)>, k: Str)
    requires FitsPairs(ps) && At(b, o, EncMap(ps))
    ensures ReadMap(b, o, map[]).Got? && ReadMap(b, o, map[]).next == o + |EncMap(ps)|
    ensures var m := ReadMap(b, o, map[]).value;
            && (k in m <==> exists i :: 0 <= i < |ps| && ps[i].0 == k)
            && forall i :: 0 <= i < |ps| && ps[i].0 == k && (forall j :: i < j < |ps| ==> ps[j].0 != k) ==>
                 k in m && m[k] == ps[i].1
  {
    AtSplit(b, o, EncSize(|ps|), EncPairs(ps));
    ReadSizeAt(b, o, |ps|);
    ReadPairsAt(b, o + 8, ps, map[]);
    StoreAllKeepsLast(map[], ps, k);
  }

  // ------------------------------------------------------------ truncation

  lemma ReadStringCut(b: seq<byte>, o: nat, s: Str)
    requires FitsString(s) && Cut(b, o, EncString(s))
    ensures ReadString(b, o) == Fail
  {
    CutSplit(b, o, EncSize(|s|), s);
    if At(b, o, EncSize(|s|)) { ReadSizeAt(b, o, |s|); }
  }

  lemma {:induction false} ReadStringsCut(b: seq<byte>, o: nat, ss: seq<Str>, acc: seq<Str>)
    requires FitsStrings(ss) && Cut(b, o, EncStrings(ss))
    ensures ReadStrings(b, o, |ss|, acc) == Fail
    decreases |ss|
  {
    var x := EncString(ss[0]);
    CutSplit(b, o, x, EncStrings(ss[1..]));
    if Cut(b, o, x) {
      ReadStringCut(b, o, ss[0]);
    } else {
      ReadStringAt(b, o, ss[0]);
      ReadStringsCut(b, o + |x|, ss[1..], acc + [ss[0]]);
    }
  }

  lemma ReadPairCut(b: seq<byte>, o: nat, p: (Str, Str), n: nat, acc: map<Str, Str>)
    requires FitsString(p.0) && FitsString(p.1) && Cut(b, o, EncPair(p))
    ensures ReadPairs(b, o, n + 1, acc) == Fail
  {
    hide EncString;
    CutSplit(b, o, EncString(p.0), EncString(p.1));
    if Cut(b, o, EncString(p.0)) {
      ReadStringCut(b, o, p.0);
    } else {
      ReadStringAt(b, o, p.0);
      ReadStringCut(b, o + |EncString(p.0)|, p.1);
    }
  }

  lemma {:induction false} ReadPairsCut(b: seq<byte>, o: nat, ps: seq<(Str, Str)>, acc: map<Str, Str>)
    requires FitsPairs(ps) && Cut(b, o, EncPairs(ps))
    ensures ReadPairs(b, o, |ps|, acc) == Fail
    decreases |ps|
  {
    hide EncPair, ReadPairs;
    CutSplit(b, o, EncPair(ps[0]), EncPairs(ps[1..]));
    if Cut(b, o, EncPair(ps[0])) {
      ReadPairCut(b, o, ps[0], |ps| - 1, acc);
    } else {
      ReadPairAt(b, o, ps[0], |ps| - 1, acc);
      ReadPairsCut(b, o + |EncPair(ps[0])|, ps[1..], acc[ps[0].0 := ps[0].1]);
    }
  }

  /** A vector cut anywhere short of its end is refused. */
  lemma ReadVectorCut(b: seq<byte>, o: nat, ss: seq<Str>)
    requires FitsStrings(ss) && Cut(b, o, EncVector(ss))
    ensures ReadVector(b, o, []) == Fail
  {
    CutSplit(b, o, EncSize(|ss|), EncStrings(ss));
    if At(b, o, EncSize(|ss|)) {
      ReadSizeAt(b, o, |ss|);
      ReadStringsCut(b, o + 8, ss, []);
    }
  }

  /** A map cut anywhere short of its end is refused. */
  lemma ReadMapCut(b: seq<byte>, o: nat, ps: seq<(Str, Str)>)
    requires FitsPairs(ps) && Cut(b, o, EncMap(ps))
    ensures ReadMap(b, o, map[]) == Fail
  {
    CutSplit(b, o, EncSize(|ps|), EncPairs(ps));
    if At(b, o, EncSize(|ps|)) {
      ReadSizeAt(b, o, |ps|);
      ReadPairsCut(b, o + 8, ps, map[]);
    }
  }

  // ------------------------------------------------------- self-delimiting

  lemma AtFront(e: seq<byte>, t: seq<byte>)
    ensures At(e + t, 0, e) && (e + t)[|e|..] == t
  {
    assert (e + t)[0..|e|] == e;
  }

  lemma StringIsSelfDelimiting(x: Str, s: seq<byte>, y: Str, t: seq<byte>)
    requires FitsString(x) && FitsString(y) && EncString(x) + s == EncString(y) + t
    ensures x == y && s == t
  {
    AtFront(EncString(x), s);
    AtFront(EncString(y), t);
    ReadStringAt(EncString(x) + s, 0, x);
    ReadStringAt(EncString(x) + s, 0, y);
  }

  lemma VectorIsSelfDelimiting(x: seq<Str>, s: seq<byte>, y: seq<Str>, t: seq<byte>)
    requires FitsStrings(x) && FitsStrings(y) && EncVector(x) + s == EncVector(y) + t
    ensures x == y && s == t
  {
    AtFront(EncVector(x), s);
    AtFront(EncVector(y), t);
    ReadVectorAt(EncVector(x) + s, 0, x);
    ReadVectorAt(EncVector(x) + s, 0, y);
  }

  /** Equal bytes come from equal maps, whichever orders they were written in. */
  lemma MapIsSelfDelimiting(ps: seq<(Str, Str)>, m: map<Str, Str>, s: seq<byte>,
                            qs: seq<(Str, Str)>, n: map<Str, Str>, t: seq<byte>)
    requires FitsPairs(ps) && FitsPairs(qs) && EnumeratesMap(ps, m) && EnumeratesMap(qs, n)
    requires EncMap(ps) + s == EncMap(qs) + t
    ensures m == n && s == t
  {
    AtFront(EncMap(ps), s);
    AtFront(EncMap(qs), t);
    ReadMapAt(EncMap(ps) + s, 0, ps, m);
    ReadMapAt(EncMap(ps) + s, 0, qs, n);
  }

  // ---------------------------------------------------------- the helpers

  /** The `std::vector<uint8_t> &buffer` of the append helpers. */
  class ByteBuffer {
    var bytes: seq<byte>

    constructor ()
      ensures bytes == []
    {
      bytes := [];
    }

    method AppendBytes(b: seq<byte>)
      modifies this
      ensures bytes == old(bytes) + b
    {
      bytes := bytes + b;
    }

    method AppendSize(n: nat)
      modifies this
      ensures bytes == old(bytes) + EncSize(n)
    {
      AppendBytes(EncSize(n));
    }

    method AppendString(s: Str)
      modifies this
      ensures bytes == old(bytes) + EncString(s)
    {
      AppendSize(|s|);
      AppendBytes(s);
    }

    method AppendVector(ss: seq<Str>)
      modifies this
      ensures bytes == old(bytes) + EncVector(ss)
    {
      AppendSize(|ss|);
      ghost var start := bytes;
      for i := 0 to |ss|
        invariant bytes == start + EncStrings(ss[..i])
      {
        EncStringsSnoc(ss[..i], ss[i]);
        assert ss[..i] + [ss[i]] == ss[..i + 1];
        AppendString(ss[i]);
      }
      assert ss[..|ss|] == ss;
    }

    /** Iterating over the hash map yields its keys in some order, reported as `ps`. */
    method AppendMap(m: map<Str, Str>) returns (ghost ps: seq<(Str, Str)>)
      modifies this
      ensures EnumeratesMap(ps, m)
      ensures bytes == old(bytes) + EncMap(ps)
    {
      hide EncString, EncSize, EnumeratesMap;
      AppendSize(|m|);
      ghost var start := bytes;
      ps := [];
      var rest := m.Keys;
      NothingEnumerated(m);
      while rest != {}
        invariant rest <= m.Keys && |ps| + |rest| == |m|
        invariant EnumeratesMap(ps, m - rest)
        invariant bytes == start + EncPairs(ps)
      {
        var k :| k in rest;
        Assoc(bytes, EncString(k), EncString(m[k]));
        Assoc(start, EncPairs(ps), EncPair((k, m[k])));
        AppendString(k);
        AppendString(m[k]);
        EncPairsSnoc(ps, (k, m[k]));
        EnumerateOneMore(ps, m, rest, k);
        ps := ps + [(k, m[k])];
        rest := rest - {k};
      }
      assert m - {} == m;
      Assoc(old(bytes), EncSize(|ps|), EncPairs(ps));
    }
  }

  lemma Assoc(a: seq<byte>, b: seq<byte>, c: seq<byte>)
    ensures a + b + c == a + (b + c)
  {
  }

  lemma NothingEnumerated(m: map<Str, Str>)
    ensures EnumeratesMap([], m - m.Keys)
  {
  }

  lemma EnumerateOneMore(ps: seq<(Str, Str)>, m: map<Str, Str>, rest: set<Str>, k: Str)
    requires EnumeratesMap(ps, m - rest) && k in rest && k in m
    ensures EnumeratesMap(ps + [(k, m[k])], m - (rest - {k}))
  {
    var qs, n := ps + [(k, m[k])], m - (rest - {k});
    assert qs[|ps|] == (k, m[k]);
    forall j | j in n ensures (j, n[j]) in qs {
      if j != k { assert (j, (m - rest)[j]) in ps; }
    }
  }

  lemma {:induction false} EncStringsSnoc(ss: seq<Str>, s: Str)
    ensures EncStrings(ss + [s]) == EncStrings(ss) + EncString(s)
  {
    hide EncString;
    if ss == [] {
      assert [s][1..] == [];
    } else {
      EncStringsSnoc(ss[1..], s);
      assert (ss + [s])[1..] == ss[1..] + [s];
    }
  }

  lemma {:induction false} EncPairsSnoc(ps: seq<(Str, Str)>, p: (Str, Str))
    ensures EncPairs(ps + [p]) == EncPairs(ps) + EncPair(p)
  {
    hide EncPair;
    if ps == [] {
      assert [p][1..] == [];
    } else {
      EncPairsSnoc(ps[1..], p);
      assert (ps + [p])[1..] == ps[1..] + [p];
    }
  }

  /** A buffer being read, with the `size_t &offset` of the read helpers. */
  class Cursor {
    const bytes: seq<byte>
    var offset: nat

    constructor (bytes: seq<byte>)
      ensures this.bytes == bytes && offset == 0
    {
      this.bytes := bytes;
      offset := 0;
    }

    method ReadSizeT() returns (ok: bool, val: nat)
      modifies this
      ensures match ReadSize(bytes, old(offset))
              case Fail => !ok && offset == old(offset)
              case Got(n, p) => ok && val == n && offset == p
    {
      val := 0;
      if offset + 8 > |bytes| {
        return false, val;
      }
      val := FromLittleEndian(bytes[offset..offset + 8]);
      offset := offset + 8;
      return true, val;
    }

    method ReadText() returns (ok: bool, str: Str)
      modifies this
      ensures match ReadString(bytes, old(offset))
              case Fail => !ok
              case Got(s, p) => ok && str == s && offset == p
    {
      str := [];
      var len;
      ok, len := ReadSizeT();
      if !ok {
        return false, str;
      }
      if offset + len > |bytes| {
        return false, str;
      }
      str := bytes[offset..offset + len];
      offset := offset + len;
    }

    /** Fills `list`, to which `target` is the initial content. */
    method ReadList(target: seq<Str>) returns (ok: bool, list: seq<Str>)
      modifies this
      ensures match ReadVector(bytes, old(offset), target)
              case Fail => !ok
              case Got(l, p) => ok && list == l && offset == p
    {
      list := target;
      var n;
      ok, n := ReadSizeT();
      if !ok {
        return false, list;
      }
      for i := 0 to n
        invariant ReadStrings(bytes, offset, n - i, list) == ReadVector(bytes, old(offset), target)
      {
        var value;
        ok, value := ReadText();
        if !ok {
          return false, list;
        }
        list := list + [value];
      }
      ok := true;
    }

    /** Fills `hash`, to which `target` is the initial content. */
    method ReadHash(target: map<Str, Str>) returns (ok: bool, hash: map<Str, Str>)
      modifies this
      ensures match ReadMap(bytes, old(offset), target)
              case Fail => !ok
              case Got(m, p) => ok && hash == m && offset == p
    {
      hide ReadString, ReadSize;
      hash := target;
      var n;
      ok, n := ReadSizeT();
      if !ok {
        return false, hash;
      }
      for i := 0 to n
        invariant ReadPairs(bytes, offset, n - i, hash) == ReadMap(bytes, old(offset), target)
      {
        var key, value;
        ok, key := ReadText();
        if !ok {
          return false, hash;
        }
        ok, value := ReadText();
        if !ok {
          return false, hash;
        }
        hash := hash[key := value];
      }
      ok := true;
    }
  }
}
