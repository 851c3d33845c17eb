/**
 * The wire values of the CQL native protocol as the driver builds them:
 * the packed frame header, length-prefixed strings, string pairs and the
 * counted string map, with their big-endian serialisation.
 */
module Protocol {
  import opened Wrappers
  import opened Bytes

  /** Size of the packed header: 1 + 1 + 2 + 1 + 4 bytes, no padding. */
  const HeaderSize: nat := 9

  /** The frame header, fields in wire order. */
  datatype Frame = Frame(version: uint8, flags: uint8, stream: uint16, opcode: uint8, length: uint32)

  /** Reads a header from the first nine bytes of `b`; fails on fewer. */
  function DecodeHeader(b: seq<uint8>): (r: Option<Frame>)
    ensures r.Some? <==> |b| >= HeaderSize
  {
    if |b| < HeaderSize then None
    else Some(Frame(b[0], b[1], FromBE16(b[2..4]), b[4], FromBE32(b[5..9])))
  }

  /**
   * Writes the header field by field in declaration order, multi-byte
   * fields most significant byte first.
   */
  function EncodeHeader(f: Frame): (r: seq<uint8>)
    ensures |r| == HeaderSize
    ensures r[0] == f.version && r[1] == f.flags && r[4] == f.opcode
    ensures FromBE16(r[2..4]) == f.stream && FromBE32(r[5..9]) == f.length
    ensures DecodeHeader(r) == Some(f)
  {
    var r := [f.version, f.flags] + BE16(f.stream) + [f.opcode] + BE32(f.length);
    assert r[2..4] == BE16(f.stream) && r[5..9] == BE32(f.length);
    r
  }

  /** Decoding never loses bytes: the nine bytes read are the encoding of the header read. */
  lemma DecodeThenEncode(b: seq<uint8>)
    requires |b| >= HeaderSize
    ensures EncodeHeader(DecodeHeader(b).value) == b[..HeaderSize]
  {
    BE16OfFromBE16(b[2..4]);
    BE32OfFromBE32(b[5..9]);
    assert b[..HeaderSize] == [b[0], b[1]] + b[2..4] + [b[4]] + b[5..9];
  }

  /** Header encoding is a bijection between frames and nine-byte sequences. */
  lemma HeaderBijection(f: Frame, g: Frame, b: seq<uint8>)
    requires |b| == HeaderSize
    ensures EncodeHeader(f) == EncodeHeader(g) <==> f == g
    ensures exists h :: EncodeHeader(h) == b
  {
    DecodeThenEncode(b);
    assert b[..HeaderSize] == b;
  }

  /** A length-prefixed protocol string; `length` is a stored field. */
  datatype String = String(length: uint16, bytes: seq<uint8>) {
    /** The stored length equals the byte count. */
    predicate Valid() {
      length == |bytes|
    }
  }

  /** Go's zero value of `String`. */
  const EmptyString := String(0, [])

  /**
   * Keeps the bytes of `val` and stores its byte count truncated to 16 bits:
   * the count is exact up to 65535 bytes and wraps silently beyond.
   */
  function NewString(val: GoString): (s: String)
    ensures s.bytes == val
    ensures (|val| - s.length) % 0x1_0000 == 0
    ensures s.Valid() <==> |val| <= MaxUint16
  {
    String(ToUint16(|val|), val)
  }

  datatype StringPair = StringPair(key: String, value: String) {
    predicate Valid() {
      key.Valid() && value.Valid()
    }
  }

  /** Go's zero value of `StringPair`. */
  const EmptyPair := StringPair(EmptyString, EmptyString)

  /** Overwrites both halves of the pair `sp` from the arguments. */
  function AddPair(sp: StringPair, key: GoString, value: GoString): (r: StringPair)
    ensures r.key.bytes == key && r.value.bytes == value
    ensures (|key| - r.key.length) % 0x1_0000 == 0 && (|value| - r.value.length) % 0x1_0000 == 0
    ensures r.Valid() <==> |key| <= MaxUint16 && |value| <= MaxUint16
  {
    StringPair(NewString(key), NewString(value))
  }

  /** A fresh pair filled in by `AddPair`. */
  function NewStringPair(key: GoString, value: GoString): (r: StringPair)
    ensures r.key == NewString(key) && r.value == NewString(value)
  {
    AddPair(EmptyPair, key, value)
  }

  /** A counted list of pairs; `num` is a stored 16-bit counter. */
  datatype StringMap = StringMap(num: uint16, pairs: seq<StringPair>) {
    /** The stored counter equals the number of pairs. */
    predicate Consistent() {
      num == |pairs|
    }

    /** Every stored count and length agrees with what it counts. */
    predicate WellFormed() {
      Consistent() && forall i :: 0 <= i < |pairs| ==> pairs[i].Valid()
    }
  }

  /** Go's zero value of `StringMap`. */
  const EmptyMap := StringMap(0, [])

  /** Appends `sp` and bumps the 16-bit counter, which wraps at 65536. */
  function AddStringPair(sm: StringMap, sp: StringPair): (r: StringMap)
    ensures |r.pairs| == |sm.pairs| + 1
    ensures r.pairs[..|sm.pairs|] == sm.pairs && r.pairs[|sm.pairs|] == sp
    ensures (r.num - sm.num) % 0x1_0000 == 1
    ensures sm.Consistent() ==> (r.Consistent() <==> |r.pairs| <= MaxUint16)
  {
    StringMap(ToUint16(sm.num + 1), sm.pairs + [sp])
  }

  /** The map obtained from the zero value by adding `ps` one by one. */
  function FromPairs(ps: seq<StringPair>): StringMap
  {
    if ps == [] then EmptyMap else AddStringPair(FromPairs(ps[..|ps| - 1]), ps[|ps| - 1])
  }

  /** Counting one more, modulo 2^16. */
  lemma WrapIncrement(n: nat)
    ensures ToUint16(ToUint16(n) + 1) == (n + 1) % 0x1_0000
  {
  }

  /**
   * Building a map from the zero value keeps the pairs in insertion order
   * and counts them modulo 2^16; below 65536 pairs the count is exact.
   */
  lemma {:induction false} FromPairsCounts(ps: seq<StringPair>)
    ensures FromPairs(ps).pairs == ps
    ensures FromPairs(ps).num == |ps| % 0x1_0000
    ensures FromPairs(ps).Consistent() <==> |ps| <= MaxUint16
  {
    if ps != [] {
      var init := ps[..|ps| - 1];
      var m := FromPairs(init);
      FromPairsCounts(init);
      assert FromPairs(ps) == AddStringPair(m, ps[|ps| - 1]);
      assert init + [ps[|ps| - 1]] == ps;
      WrapIncrement(|init|);
    }
  }

  function EncodeString(s: String): seq<uint8>
  {
    BE16(s.length) + s.bytes
  }

  function EncodePair(p: StringPair): seq<uint8>
  {
    EncodeString(p.key) + EncodeString(p.value)
  }

  /** Bytes taken by the pairs on the wire: two length prefixes plus the contents. */
  ghost function PairsSize(ps: seq<StringPair>): nat
  {
    if ps == [] then 0
    else 4 + |ps[0].key.bytes| + |ps[0].value.bytes| + PairsSize(ps[1..])
  }

  /** The pairs in order, each as key length, key bytes, value length, value bytes. */
  function EncodePairs(ps: seq<StringPair>): (r: seq<uint8>)
    ensures |r| == PairsSize(ps)
  {
    if ps == [] then [] else EncodePair(ps[0]) + EncodePairs(ps[1..])
  }

  /**
   * At offset `off` of `r` stand the stored key length, the key bytes, the
   * stored value length and the value bytes of `p`.
   */
  ghost predicate PairWrittenAt(r: seq<uint8>, off: int, p: StringPair)
  {
    var end := off + 4 + |p.key.bytes| + |p.value.bytes|;
    0 <= off <= end <= |r|
    && r[off..end] == BE16(p.key.length) + p.key.bytes + BE16(p.value.length) + p.value.bytes
  }

  /** A pair's encoding placed after `a` is written at offset `|a|`. */
  lemma PairWrittenAfter(a: seq<uint8>, p: StringPair, b: seq<uint8>)
    ensures PairWrittenAt(a + EncodePair(p) + b, |a|, p)
  {
    var pair := EncodePair(p);
    assert |pair| == 4 + |p.key.bytes| + |p.value.bytes|;
    assert (a + pair + b)[|a|..|a| + |pair|] == pair;
  }

  /** Bytes written in front move a written pair by their count. */
  lemma PairWrittenShift(a: seq<uint8>, b: seq<uint8>, off: int, p: StringPair)
    requires PairWrittenAt(b, off, p)
    ensures PairWrittenAt(a + b, |a| + off, p)
  {
    var end := off + 4 + |p.key.bytes| + |p.value.bytes|;
    assert (a + b)[|a| + off..|a| + end] == b[off..end];
  }

  /** Pair `i` is written right after the encodings of the pairs before it. */
  lemma {:induction false} EncodePairsLayout(ps: seq<StringPair>, i: int)
    requires 0 <= i < |ps|
    ensures PairWrittenAt(EncodePairs(ps), PairsSize(ps[..i]), ps[i])
  {
    var head, rest := EncodePair(ps[0]), EncodePairs(ps[1..]);
    if i == 0 {
      PairWrittenAfter([], ps[0], rest);
      assert [] + head + rest == EncodePairs(ps);
    } else {
      EncodePairsLayout(ps[1..], i - 1);
      assert ps[..i][1..] == ps[1..][..i - 1];
      PairWrittenShift(head, rest, PairsSize(ps[1..][..i - 1]), ps[i]);
    }
  }

  /**
   * The stored counter followed by the pairs in order, each written with its
   * stored lengths exactly as they are, never recomputed. The Go method's
   * error result is always nil.
   */
  function MarshalBinary(sm: StringMap): (r: seq<uint8>)
    ensures |r| == 2 + PairsSize(sm.pairs)
    ensures r[..2] == BE16(sm.num)
    ensures forall i :: 0 <= i < |sm.pairs| ==> PairWrittenAt(r, 2 + PairsSize(sm.pairs[..i]), sm.pairs[i])
  {
    var body := EncodePairs(sm.pairs);
    var r := BE16(sm.num) + body;
    assert r[..2] == BE16(sm.num);
    assert forall i :: 0 <= i < |sm.pairs| ==> PairWrittenAt(r, 2 + PairsSize(sm.pairs[..i]), sm.pairs[i]) by {
      forall i | 0 <= i < |sm.pairs|
        ensures PairWrittenAt(r, 2 + PairsSize(sm.pairs[..i]), sm.pairs[i])
      {
        EncodePairsLayout(sm.pairs, i);
        var p, off := sm.pairs[i], PairsSize(sm.pairs[..i]);
        var end := off + 4 + |p.key.bytes| + |p.value.bytes|;
        assert r[2 + off..2 + end] == body[off..end];
      }
    }
    r
  }

  /** The empty map encodes to two zero bytes. */
  lemma MarshalEmpty()
    ensures MarshalBinary(EmptyMap) == [0, 0]
  {
  }

  // A decoder for the string map. The driver has none (its `UnmarshalBinary`
  // is a stub); it exists here only to show that `MarshalBinary` loses no
  // information on well-formed maps.

  function ParseUint16(b: seq<uint8>): Option<(uint16, seq<uint8>)>
  {
    if |b| < 2 then None else Some((FromBE16(b[..2]), b[2..]))
  }

  function ParseString(b: seq<uint8>): (r: Option<(String, seq<uint8>)>)
    ensures r.Some? ==> r.value.0.Valid()
  {
    match ParseUint16(b)
    case None => None
    case Some((n, rest)) => if |rest| < n then None else Some((String(n, rest[..n]), rest[n..]))
  }

  function ParsePair(b: seq<uint8>): (r: Option<(StringPair, seq<uint8>)>)
    ensures r.Some? ==> r.value.0.Valid()
  {
    match ParseString(b)
    case None => None
    case Some((k, rest)) =>
      match ParseString(rest)
      case None => None
      case Some((v, rest')) => Some((StringPair(k, v), rest'))
  }

  function ParsePairs(n: nat, b: seq<uint8>): (r: Option<(seq<StringPair>, seq<uint8>)>)
    ensures r.Some? ==> |r.value.0| == n
    ensures r.Some? ==> forall i :: 0 <= i < n ==> r.value.0[i].Valid()
  {
    if n == 0 then Some(([], b))
    else
      match ParsePair(b)
      case None => None
      case Some((p, rest)) =>
        match ParsePairs(n - 1, rest)
        case None => None
        case Some((ps, rest')) => Some(([p] + ps, rest'))
  }

  function ParseStringMap(b: seq<uint8>): (r: Option<(StringMap, seq<uint8>)>)
    ensures r.Some? ==> r.value.0.WellFormed()
  {
    match ParseUint16(b)
    case None => None
    case Some((n, rest)) =>
      match ParsePairs(n, rest)
      case None => None
      case Some((ps, rest')) => Some((StringMap(n, ps), rest'))
  }

  lemma ParseStringRoundTrip(s: String, rest: seq<uint8>)
    requires s.Valid()
    ensures ParseString(EncodeString(s) + rest) == Some((s, rest))
  {
    var b := EncodeString(s) + rest;
    assert b[..2] == BE16(s.length);
    assert b[2..] == s.bytes + rest;
  }

  lemma ParsePairRoundTrip(p: StringPair, rest: seq<uint8>)
    requires p.Valid()
    ensures ParsePair(EncodePair(p) + rest) == Some((p, rest))
  {
    ParseStringRoundTrip(p.key, EncodeString(p.value) + rest);
    ParseStringRoundTrip(p.value, rest);
    assert EncodePair(p) + rest == EncodeString(p.key) + (EncodeString(p.value) + rest);
  }

  /** One step of `ParsePairs`: a pair, then the remaining `n - 1`. */
  lemma ParsePairsStep(n: nat, b: seq<uint8>, p: StringPair, mid: seq<uint8>, ps: seq<StringPair>, rest: seq<uint8>)
    requires n > 0
    requires ParsePair(b) == Some((p, mid))
    requires ParsePairs(n - 1, mid) == Some((ps, rest))
    ensures ParsePairs(n, b) == Some(([p] + ps, rest))
  {
  }

  lemma {:induction false} ParsePairsRoundTrip(ps: seq<StringPair>, rest: seq<uint8>)
    requires forall i :: 0 <= i < |ps| ==> ps[i].Valid()
    ensures ParsePairs(|ps|, EncodePairs(ps) + rest) == Some((ps, rest))
  {
    if ps == [] {
      assert EncodePairs(ps) + rest == rest;
    } else {
      var tail := EncodePairs(ps[1..]) + rest;
      assert EncodePairs(ps) + rest == EncodePair(ps[0]) + tail;
      ParsePairRoundTrip(ps[0], tail);
      ParsePairsRoundTrip(ps[1..], rest);
      ParsePairsStep(|ps|, EncodePairs(ps) + rest, ps[0], tail, ps[1..], rest);
      assert [ps[0]] + ps[1..] == ps;
    }
  }

  /**
   * A map decodes back from its encoding exactly when every stored count and
   * length is right: `MarshalBinary` does not recompute them.
   */
  lemma MarshalRoundTrip(sm: StringMap, rest: seq<uint8>)
    ensures ParseStringMap(MarshalBinary(sm) + rest) == Some((sm, rest)) <==> sm.WellFormed()
  {
    if sm.WellFormed() {
      var b := MarshalBinary(sm) + rest;
      assert b[..2] == BE16(sm.num);
      assert b[2..] == EncodePairs(sm.pairs) + rest;
      ParsePairsRoundTrip(sm.pairs, rest);
    }
  }

  /** Distinct well-formed maps have distinct encodings. */
  lemma MarshalInjective(a: StringMap, b: StringMap)
    requires a.WellFormed() && b.WellFormed()
    ensures MarshalBinary(a) == MarshalBinary(b) <==> a == b
  {
    MarshalRoundTrip(a, []);
    MarshalRoundTrip(b, []);
    assert MarshalBinary(a) + [] == MarshalBinary(a);
    assert MarshalBinary(b) + [] == MarshalBinary(b);
  }

  /**
   * A key of 65536 bytes gets the stored length 0: the map holding it is
   * written with the length prefix 00 00 in front of the key, a decoder
   * reads an empty key there, and the map does not decode back.
   */
  lemma OversizedKeyMisframes(key: GoString, value: GoString)
    requires |key| == 0x1_0000
    ensures var sm := AddStringPair(EmptyMap, NewStringPair(key, value));
      var b := MarshalBinary(sm);
      && b[2..4] == [0, 0]
      && ParseStringMap(b) != Some((sm, []))
      && (ParseStringMap(b).Some? ==> ParseStringMap(b).value.0.pairs[0].key.bytes == [])
  {
    var sm := AddStringPair(EmptyMap, NewStringPair(key, value));
    var b := MarshalBinary(sm);
    assert PairWrittenAt(b, 2 + PairsSize(sm.pairs[..0]), sm.pairs[0]);
    assert b[2..4] == BE16(0);
    MarshalRoundTrip(sm, []);
    assert b + [] == b;
    assert b[..2] == [0, 1];
    assert ParseString(b[2..]) == Some((String(0, []), b[4..]));
  }
}
