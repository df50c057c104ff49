/** The TLV container of ZIP 316, section "Encoding of Unified Addresses": items, HRP padding, F4Jumble,
    and the Bech32m string of BIP 350. The last two are library code and appear as parameters. */
module Zip316 {
  import opened Results
  import opened Ints
  import opened CompactSize

  const PADDING_LEN := 16

  datatype Tlv = Tlv(typecode: uint64, value: Bytes)

  /** An HRP as its bytes. Strings of the outer encoding are of type S. */
  type Hrp = Bytes

  /** F4Jumble with its inverse, HRP parsing, and Bech32m with its checked decoder. */
  datatype Library<!S> = Library(
    jumble: Bytes -> Option<Bytes>,
    unjumble: Bytes -> Option<Bytes>,
    validHrp: Hrp -> bool,
    encode: (Hrp, Bytes) -> Option<S>,
    decode: S -> Option<(Hrp, Bytes)>)

  /** The inverse laws, for one HRP: Bech32m writes lower case, so it gives back only lower-case HRPs. */
  ghost predicate Inverts<S>(lib: Library<S>, hrp: Hrp) {
    && (forall b: Bytes :: lib.jumble(b).Some? ==> lib.unjumble(lib.jumble(b).value) == Some(b))
    && (forall b: Bytes :: lib.encode(hrp, b).Some? ==> lib.decode(lib.encode(hrp, b).value) == Some((hrp, b)))
  }

  // ---------------------------------------------------------------- items

  predicate Sized(items: seq<Tlv>) {
    forall i :: 0 <= i < |items| ==> |items[i].value| < TWO_64
  }

  function EncodeItem(item: Tlv): Bytes
    requires |item.value| < TWO_64
  {
    CompactSize.Encode(item.typecode) + CompactSize.Encode(|item.value|) + item.value
  }

  function Parts(items: seq<Tlv>): (parts: seq<Bytes>)
    requires Sized(items)
  {
    seq(|items|, i requires 0 <= i < |items| => EncodeItem(items[i]))
  }

  function Concat(parts: seq<Bytes>): Bytes {
    if parts == [] then [] else parts[0] + Concat(parts[1..])
  }

  lemma {:induction false} ConcatNext(parts: seq<Bytes>, i: nat)
    requires i < |parts|
    ensures Concat(parts[..i + 1]) == Concat(parts[..i]) + parts[i]
    decreases i
  {
    if i == 0 {
      assert parts[..1][1..] == [];
    } else {
      ConcatNext(parts[1..], i - 1);
      assert parts[1..][..i - 1] == parts[..i][1..] && parts[1..][..i] == parts[..i + 1][1..];
    }
  }

  function EncodeItems(items: seq<Tlv>): Bytes
    requires Sized(items)
  {
    Concat(Parts(items))
  }

  /** One turn of the decoder's loop. */
  function DecodeItem(bs: Bytes): (r: Result<(Tlv, Bytes), Error>)
    ensures r.Ok? ==> |r.value.1| < |bs| && |r.value.0.value| < TWO_64
  {
    match CompactSize.Decode(bs)
    case Err(e) => Err(e)
    case Ok((typecode, rest)) =>
      match CompactSize.Decode(rest)
      case Err(e) => Err(e)
      case Ok((len, rest')) =>
        if |rest'| < len then Err(TlvInvalid) else Ok((Tlv(typecode, rest'[..len]), rest'[len..]))
  }

  function DecodeItems(bs: Bytes): (r: Result<seq<Tlv>, Error>)
    ensures r.Ok? ==> Sized(r.value)
    decreases |bs|
  {
    if bs == [] then Ok([]) else
    match DecodeItem(bs)
    case Err(e) => Err(e)
    case Ok((item, rest)) =>
      match DecodeItems(rest)
      case Err(e) => Err(e)
      case Ok(items) => Ok([item] + items)
  }

  lemma ItemRoundTrip(item: Tlv, rest: Bytes)
    requires |item.value| < TWO_64
    ensures DecodeItem(EncodeItem(item) + rest) == Ok((item, rest))
  {
    var tail := CompactSize.Encode(|item.value|) + (item.value + rest);
    assert EncodeItem(item) + rest == CompactSize.Encode(item.typecode) + tail;
    SelfDelimiting(item.typecode, tail);
    SelfDelimiting(|item.value|, item.value + rest);
    assert (item.value + rest)[..|item.value|] == item.value && (item.value + rest)[|item.value|..] == rest;
  }

  /** An item is its typecode, then its length, then its value: read in that order they come back. */
  lemma ItemParts(item: Tlv, rest: Bytes)
    requires |item.value| < TWO_64
    ensures CompactSize.Decode(EncodeItem(item) + rest).Ok?
    ensures CompactSize.Decode(EncodeItem(item) + rest).value.0 == item.typecode
    ensures CompactSize.Decode(CompactSize.Decode(EncodeItem(item) + rest).value.1) == Ok((|item.value|, item.value + rest))
  {
    var tail := CompactSize.Encode(|item.value|) + (item.value + rest);
    assert EncodeItem(item) + rest == CompactSize.Encode(item.typecode) + tail;
    SelfDelimiting(item.typecode, tail);
    SelfDelimiting(|item.value|, item.value + rest);
  }

  /** What the decoder returns when it has read some items and goes on. */
  function After(out: seq<Tlv>, later: Result<seq<Tlv>, Error>): Result<seq<Tlv>, Error> {
    if later.Ok? then Ok(out + later.value) else later
  }

  lemma ItemFirst(out: seq<Tlv>, bs: Bytes)
    requires bs != []
    ensures var read := DecodeItem(bs);
      After(out, DecodeItems(bs)) ==
        if read.Err? then Err(read.error) else After(out + [read.value.0], DecodeItems(read.value.1))
  {
    var read := DecodeItem(bs);
    if read.Ok? {
      var later := DecodeItems(read.value.1);
      assert later.Ok? ==> out + ([read.value.0] + later.value) == out + [read.value.0] + later.value;
    }
  }

  lemma ItemThenItems(item: Tlv, rest: Bytes, items: seq<Tlv>)
    requires |item.value| < TWO_64 && DecodeItems(rest) == Ok(items)
    ensures DecodeItems(EncodeItem(item) + rest) == Ok([item] + items)
  {
    ItemRoundTrip(item, rest);
  }

  lemma FirstItem(items: seq<Tlv>)
    requires Sized(items) && items != []
    ensures EncodeItems(items) == EncodeItem(items[0]) + EncodeItems(items[1..]) && [items[0]] + items[1..] == items
  {
    assert Parts(items)[1..] == Parts(items[1..]);
  }

  /** Decoding undoes encoding on every item list. */
  lemma {:induction false} ItemsRoundTrip(items: seq<Tlv>)
    requires Sized(items)
    ensures DecodeItems(EncodeItems(items)) == Ok(items)
    decreases |items|
  {
    if items != [] {
      ItemsRoundTrip(items[1..]);
      ItemThenItems(items[0], EncodeItems(items[1..]), items[1..]);
      FirstItem(items);
    }
  }

  /** Both numbers of every item are written minimally. */
  predicate AllMinimal(bs: Bytes)
    requires DecodeItems(bs).Ok?
    decreases |bs|
  {
    bs == [] ||
    (&& CompactSize.Minimal(bs)
     && CompactSize.Minimal(CompactSize.Decode(bs).value.1)
     && AllMinimal(DecodeItem(bs).value.1))
  }

  /** Two numbers read one after the other, and the bytes after them, written back. */
  lemma WrittenBack(bs: Bytes, a: Bytes, r1: Bytes, b: Bytes, value: Bytes, rest: Bytes, m1: bool, m2: bool)
    requires Reproduces(a, r1, bs, m1) && Reproduces(b, value + rest, r1, m2)
    ensures Reproduces(a + b + value, rest, bs, m1 && m2)
  {
    assert (a + b + value) + rest == a + (b + (value + rest));
    if !(m1 && m2) {
      assert |a| + |b| + |value| + |rest| < |bs|;
    }
  }

  lemma ItemReencode(bs: Bytes)
    requires DecodeItem(bs).Ok?
    ensures var (item, rest) := DecodeItem(bs).value;
      Reproduces(EncodeItem(item), rest, bs,
        CompactSize.Minimal(bs) && CompactSize.Minimal(CompactSize.Decode(bs).value.1))
  {
    var (typecode, r1) := CompactSize.Decode(bs).value;
    var (len, r2) := CompactSize.Decode(r1).value;
    var (item, rest) := DecodeItem(bs).value;
    ReencodeIffMinimal(bs);
    ReencodeIffMinimal(r1);
    assert r2 == item.value + rest;
    WrittenBack(bs, CompactSize.Encode(typecode), r1, CompactSize.Encode(len), item.value, rest,
      CompactSize.Minimal(bs), CompactSize.Minimal(r1));
  }

  /** Re-encoding what was decoded reproduces the bytes exactly when every CompactSize in them was minimal. */
  lemma {:induction false} ItemsReencodeIffMinimal(bs: Bytes)
    requires DecodeItems(bs).Ok?
    ensures EncodeItems(DecodeItems(bs).value) == bs <==> AllMinimal(bs)
    ensures |EncodeItems(DecodeItems(bs).value)| <= |bs|
    decreases |bs|
  {
    if bs != [] {
      var (item, rest) := DecodeItem(bs).value;
      var items := DecodeItems(rest).value;
      assert DecodeItems(bs).value == [item] + items;
      assert ([item] + items)[1..] == items;
      FirstItem([item] + items);
      ItemReencode(bs);
      ItemsReencodeIffMinimal(rest);
      var a, b := EncodeItem(item), EncodeItems(items);
      if a + b == bs {
        assert |a| + |rest| == |bs|;
        assert bs[..|a|] == a && bs[|a|..] == b;
        ItemBoundary(bs, item, rest);
      }
    }
  }

  /** What remains after an item is the tail of the input. */
  lemma ItemBoundary(bs: Bytes, item: Tlv, rest: Bytes)
    requires DecodeItem(bs) == Ok((item, rest))
    ensures |rest| <= |bs| && bs[|bs| - |rest|..] == rest
  {
    var (typecode, r1) := CompactSize.Decode(bs).value;
    var (len, r2) := CompactSize.Decode(r1).value;
    assert r1 == bs[|bs| - |r1|..];
    assert r2 == r1[|r1| - |r2|..];
    assert rest == r2[|r2| - |rest|..];
  }

  // ---------------------------------------------------------------- padding

  function Padding(hrp: Hrp): Bytes
    requires |hrp| <= PADDING_LEN
  {
    hrp + seq(PADDING_LEN - |hrp|, i => 0)
  }

  /** Sixteen bytes: the HRP, then zeroes. */
  lemma PaddingBytes(hrp: Hrp)
    requires |hrp| <= 16
    ensures |Padding(hrp)| == 16 && Padding(hrp)[..|hrp|] == hrp && forall i :: |hrp| <= i < 16 ==> Padding(hrp)[i] == 0
  {
  }

  /** The bytes, then the HRP, then zeroes up to sixteen bytes after the bytes. */
  ghost predicate Padded(padded: Bytes, raw: Bytes, hrp: Hrp) {
    && |hrp| <= 16 && |padded| == |raw| + 16
    && padded[..|raw|] == raw && padded[|raw|..|raw| + |hrp|] == hrp
    && forall i :: |raw| + |hrp| <= i < |padded| ==> padded[i] == 0
  }

  lemma PaddedOnly(padded: Bytes, raw: Bytes, hrp: Hrp)
    ensures Padded(padded, raw, hrp) <==> |hrp| <= 16 && padded == raw + Padding(hrp)
  {
    if |hrp| <= 16 {
      PaddingBytes(hrp);
      if Padded(padded, raw, hrp) {
        forall i | 0 <= i < |padded| ensures padded[i] == (raw + Padding(hrp))[i] {
          if |raw| <= i < |raw| + |hrp| {
            assert padded[i] == padded[|raw|..|raw| + |hrp|][i - |raw|] && Padding(hrp)[i - |raw|] == Padding(hrp)[..|hrp|][i - |raw|];
          } else if i < |raw| {
            assert padded[i] == padded[..|raw|][i];
          }
        }
      }
    }
  }

  /** What is encoded, and which error comes first when nothing is. */
  lemma EncodeSteps<S>(lib: Library<S>, hrp: Hrp, raw: Bytes, padded: Bytes)
    ensures |hrp| > 16 ==> EncodePayload(lib, hrp, raw) == Err(HrpTooLong)
    ensures |hrp| <= 16 && |raw| < 32 ==> EncodePayload(lib, hrp, raw) == Err(PayloadTooShort)
    ensures |raw| >= 32 && Padded(padded, raw, hrp) ==>
      var jumbled := lib.jumble(padded);
      EncodePayload(lib, hrp, raw) ==
        if jumbled.None? then Err(F4JumbleFailed)
        else if !lib.validHrp(hrp) then Err(InvalidHrp)
        else if lib.encode(hrp, jumbled.value).None? then Err(Bech32EncodeFailed)
        else Ok(lib.encode(hrp, jumbled.value).value)
  {
    PaddedOnly(padded, raw, hrp);
  }

  /** Decoding gives exactly the bytes that, padded with the expected HRP, the string carries under that HRP. */
  lemma DecodesIff<S>(lib: Library<S>, expected: Hrp, s: S, raw: Bytes)
    ensures DecodePayload(lib, expected, s) == Ok(raw) <==>
      && lib.decode(s).Some? && lib.decode(s).value.0 == expected
      && lib.unjumble(lib.decode(s).value.1).Some?
      && Padded(lib.unjumble(lib.decode(s).value.1).value, raw, expected)
  {
    if lib.decode(s).Some? && lib.unjumble(lib.decode(s).value.1).Some? {
      var bytes := lib.unjumble(lib.decode(s).value.1).value;
      PaddedOnly(bytes, raw, expected);
      if |bytes| >= 16 {
        assert bytes == bytes[..|bytes| - 16] + bytes[|bytes| - 16..];
      }
    }
  }

  function EncodePayload<S>(lib: Library<S>, hrp: Hrp, raw: Bytes): Result<S, Error> {
    if |hrp| > PADDING_LEN then Err(HrpTooLong)
    else if |raw| + PADDING_LEN < 48 then Err(PayloadTooShort)
    else
      var jumbled := lib.jumble(raw + Padding(hrp));
      if jumbled.None? then Err(F4JumbleFailed)
      else if !lib.validHrp(hrp) then Err(InvalidHrp)
      else
        var s := lib.encode(hrp, jumbled.value);
        if s.None? then Err(Bech32EncodeFailed) else Ok(s.value)
  }

  /** The code slices the padding by the expected HRP's length, which panics beyond 16 bytes. */
  function DecodePayload<S>(lib: Library<S>, expected: Hrp, s: S): Result<Bytes, Error> {
    var checked := lib.decode(s);
    if checked.None? then Err(Bech32DecodeFailed)
    else if checked.value.0 != expected then Err(HrpMismatch)
    else
      var bytes := lib.unjumble(checked.value.1);
      if bytes.None? then Err(F4JumbleFailed)
      else if |bytes.value| < PADDING_LEN then Err(PaddingInvalid)
      else if |expected| > PADDING_LEN then Err(SlicePanic)
      else
        var cut := |bytes.value| - PADDING_LEN;
        if bytes.value[cut..] == Padding(expected) then Ok(bytes.value[..cut]) else Err(PaddingInvalid)
  }

  function EncodeContainer<S>(lib: Library<S>, hrp: Hrp, items: seq<Tlv>): Result<S, Error>
    requires Sized(items)
  {
    EncodePayload(lib, hrp, EncodeItems(items))
  }

  function DecodeContainer<S>(lib: Library<S>, expected: Hrp, s: S): Result<seq<Tlv>, Error> {
    match DecodePayload(lib, expected, s)
    case Err(e) => Err(e)
    case Ok(bytes) => DecodeItems(bytes)
  }

  // ---------------------------------------------------------------- the code

  /** encode_zip316_bech32m. */
  method EncodeZip316Bech32m<S>(lib: Library<S>, hrp: Hrp, raw: Bytes) returns (res: Result<S, Error>)
    ensures res == EncodePayload(lib, hrp, raw)
  {
    if |hrp| > PADDING_LEN {
      return Err(HrpTooLong);
    }
    if |raw| + PADDING_LEN < 48 {
      return Err(PayloadTooShort);
    }
    var padding := new byte[PADDING_LEN](i => 0);
    for i := 0 to |hrp|
      invariant padding[..i] == hrp[..i]
      invariant forall j :: i <= j < PADDING_LEN ==> padding[j] == 0
    {
      padding[i] := hrp[i];
    }
    assert padding[..] == Padding(hrp);
    var jumbled := lib.jumble(raw + padding[..]);
    if jumbled.None? {
      return Err(F4JumbleFailed);
    }
    if !lib.validHrp(hrp) {
      return Err(InvalidHrp);
    }
    var s := lib.encode(hrp, jumbled.value);
    if s.None? {
      return Err(Bech32EncodeFailed);
    }
    return Ok(s.value);
  }

  /** decode_zip316_bech32m. */
  method DecodeZip316Bech32m<S>(lib: Library<S>, expected: Hrp, s: S) returns (res: Result<Bytes, Error>)
    ensures res == DecodePayload(lib, expected, s)
  {
    var checked := lib.decode(s);
    if checked.None? {
      return Err(Bech32DecodeFailed);
    }
    if checked.value.0 != expected {
      return Err(HrpMismatch);
    }
    var unjumbled := lib.unjumble(checked.value.1);
    if unjumbled.None? {
      return Err(F4JumbleFailed);
    }
    var bytes := unjumbled.value;
    if |bytes| < PADDING_LEN {
      return Err(PaddingInvalid);
    }
    var padding := bytes[|bytes| - PADDING_LEN..];
    if |expected| > |padding| {
      return Err(SlicePanic);
    }
    if padding[..|expected|] != expected {
      return Err(PaddingInvalid);
    }
    for i := |expected| to PADDING_LEN
      invariant forall j :: |expected| <= j < i ==> padding[j] == 0
    {
      if padding[i] != 0 {
        assert padding[i] != Padding(expected)[i];
        return Err(PaddingInvalid);
      }
    }
    assert padding == Padding(expected);
    return Ok(bytes[..|bytes| - PADDING_LEN]);
  }

  /** One turn of the encoder's loop. */
  method WriteItem(item: Tlv, payload: Buffer)
    requires |item.value| < TWO_64
    modifies payload
    ensures payload.bytes == old(payload.bytes) + EncodeItem(item)
  {
    WriteCompactSize(item.typecode, payload);
    WriteCompactSize(|item.value|, payload);
    payload.bytes := payload.bytes + item.value;
    Grouped(old(payload.bytes), CompactSize.Encode(item.typecode), CompactSize.Encode(|item.value|), item.value);
  }

  lemma Grouped(front: Bytes, a: Bytes, b: Bytes, c: Bytes)
    ensures front + a + b + c == front + (a + b + c)
  {
  }

  /** One turn of the decoder's loop: the reader stops just past the item. */
  method ReadItem(rest: Buffer) returns (res: Result<Tlv, Error>)
    modifies rest
    ensures match DecodeItem(old(rest.bytes))
            case Ok((item, after)) => res == Ok(item) && rest.bytes == after
            case Err(e) => res == Err(e)
  {
    var typecode := ReadCompactSize(rest);
    if typecode.Err? {
      return Err(typecode.error);
    }
    var len := ReadCompactSize(rest);
    if len.Err? {
      return Err(len.error);
    }
    if |rest.bytes| < len.value {
      return Err(TlvInvalid);
    }
    res := Ok(Tlv(typecode.value, rest.bytes[..len.value]));
    rest.bytes := rest.bytes[len.value..];
  }

  /** The loop of encode_tlv_container. */
  method WriteItems(items: seq<Tlv>, payload: Buffer)
    requires Sized(items) && payload.bytes == []
    modifies payload
    ensures payload.bytes == EncodeItems(items)
  {
    ghost var parts := Parts(items);
    for i := 0 to |items|
      invariant payload.bytes == Concat(parts[..i])
    {
      ConcatNext(parts, i);
      WriteItem(items[i], payload);
    }
    assert parts[..|items|] == parts;
  }

  /** encode_tlv_container. */
  method EncodeTlvContainer<S>(lib: Library<S>, hrp: Hrp, items: seq<Tlv>) returns (res: Result<S, Error>)
    requires Sized(items)
    ensures res == EncodeContainer(lib, hrp, items)
  {
    var payload := new Buffer([]);
    WriteItems(items, payload);
    res := EncodeZip316Bech32m(lib, hrp, payload.bytes);
  }

  /** The loop of decode_tlv_container: it ends on every string because each turn consumes its input. */
  method ReadItems(rest: Buffer) returns (res: Result<seq<Tlv>, Error>)
    modifies rest
    ensures res == DecodeItems(old(rest.bytes))
  {
    var out: seq<Tlv> := [];
    ghost var all := DecodeItems(rest.bytes);
    assert all.Ok? ==> [] + all.value == all.value;
    while |rest.bytes| > 0
      invariant all == After(out, DecodeItems(rest.bytes))
      decreases |rest.bytes|
    {
      ItemFirst(out, rest.bytes);
      var read := ReadItem(rest);
      if read.Err? {
        return Err(read.error);
      }
      out := out + [read.value];
    }
    assert rest.bytes == [] && out + [] == out;
    return Ok(out);
  }

  /** decode_tlv_container. */
  method DecodeTlvContainer<S>(lib: Library<S>, expected: Hrp, s: S) returns (res: Result<seq<Tlv>, Error>)
    ensures res == DecodeContainer(lib, expected, s)
  {
    var bytes := DecodeZip316Bech32m(lib, expected, s);
    if bytes.Err? {
      return Err(bytes.error);
    }
    var rest := new Buffer(bytes.value);
    res := ReadItems(rest);
  }

  // ---------------------------------------------------------------- main results

  /** Decoding an encoded payload returns exactly its bytes. */
  lemma PayloadRoundTrip<S>(lib: Library<S>, hrp: Hrp, raw: Bytes)
    requires Inverts(lib, hrp) && EncodePayload(lib, hrp, raw).Ok?
    ensures DecodePayload(lib, hrp, EncodePayload(lib, hrp, raw).value) == Ok(raw)
  {
    var padded := raw + Padding(hrp);
    assert padded[|padded| - PADDING_LEN..] == Padding(hrp) && padded[..|padded| - PADDING_LEN] == raw;
    var jumbled := lib.jumble(padded).value;
    assert lib.unjumble(jumbled) == Some(padded);
    assert lib.decode(lib.encode(hrp, jumbled).value) == Some((hrp, jumbled));
  }

  /** Decoding an encoded container returns exactly its items. */
  lemma ContainerRoundTrip<S>(lib: Library<S>, hrp: Hrp, items: seq<Tlv>)
    requires Sized(items) && Inverts(lib, hrp) && EncodeContainer(lib, hrp, items).Ok?
    ensures DecodeContainer(lib, hrp, EncodeContainer(lib, hrp, items).value) == Ok(items)
  {
    PayloadRoundTrip(lib, hrp, EncodeItems(items));
    ItemsRoundTrip(items);
  }

  /** Different item lists have different encodings. */
  lemma ContainerInjective<S>(lib: Library<S>, hrp: Hrp, a: seq<Tlv>, b: seq<Tlv>)
    requires Sized(a) && Sized(b) && Inverts(lib, hrp)
    requires EncodeContainer(lib, hrp, a).Ok? && EncodeContainer(lib, hrp, a) == EncodeContainer(lib, hrp, b)
    ensures a == b
  {
    ContainerRoundTrip(lib, hrp, a);
    ContainerRoundTrip(lib, hrp, b);
  }

  /** The padding binds the HRP: relabelling an encoded payload with another HRP (both without zero bytes)
      makes the decoder refuse it. */
  lemma RelabelledRefused<S>(lib: Library<S>, hrp: Hrp, other: Hrp, raw: Bytes, s: S)
    requires |hrp| <= PADDING_LEN && |other| <= PADDING_LEN && hrp != other
    requires 0 !in hrp && 0 !in other && Inverts(lib, hrp)
    requires lib.jumble(raw + Padding(hrp)).Some?
    requires lib.decode(s) == Some((other, lib.jumble(raw + Padding(hrp)).value))
    ensures DecodeContainer(lib, other, s) == Err(PaddingInvalid)
  {
    var padded := raw + Padding(hrp);
    assert padded[|padded| - PADDING_LEN..] == Padding(hrp);
    if Padding(hrp) == Padding(other) {
      PaddingInjective(hrp, other);
    }
  }

  lemma PaddingInjective(a: Hrp, b: Hrp)
    requires |a| <= PADDING_LEN && |b| <= PADDING_LEN && 0 !in a && 0 !in b && Padding(a) == Padding(b)
    ensures a == b
  {
    ZeroesPad(a, b);
    ZeroesPad(b, a);
    assert a == Padding(a)[..|a|] && b == Padding(b)[..|b|];
  }

  lemma ZeroesPad(a: Hrp, b: Hrp)
    requires |a| <= PADDING_LEN && |b| <= PADDING_LEN && 0 !in b && Padding(a) == Padding(b)
    ensures |b| <= |a|
  {
    assert forall k :: 0 <= k < |b| ==> Padding(b)[k] == b[k] && b[k] in b;
    if |a| < PADDING_LEN {
      assert Padding(a)[|a|] == 0;
    }
  }

  /** The decoder panics exactly when an HRP over 16 bytes gets past the checks before the slice. An encoder
      that refuses such HRPs never makes a string of that kind. */
  lemma PanicsIff<S>(lib: Library<S>, hrp: Hrp, s: S)
    ensures DecodeContainer(lib, hrp, s) == Err(SlicePanic) <==>
      && |hrp| > PADDING_LEN && lib.decode(s).Some? && lib.decode(s).value.0 == hrp
      && lib.unjumble(lib.decode(s).value.1).Some? && |lib.unjumble(lib.decode(s).value.1).value| >= PADDING_LEN
  {
    if DecodePayload(lib, hrp, s).Ok? {
      DecodeErrors(DecodePayload(lib, hrp, s).value);
    }
  }

  lemma {:induction false} DecodeErrors(bs: Bytes)
    ensures DecodeItems(bs).Err? ==> DecodeItems(bs) == Err(TlvInvalid)
    decreases |bs|
  {
    if bs != [] && DecodeItem(bs).Ok? {
      DecodeErrors(DecodeItem(bs).value.1);
    }
  }

  /** A decoded container is the encoding of what was decoded exactly when its numbers were minimal and it
      is long enough to be encoded, when the library steps also invert the other way on it. */
  lemma ContainerReencodeIffMinimal<S>(lib: Library<S>, hrp: Hrp, s: S)
    requires DecodeContainer(lib, hrp, s).Ok? && Inverts(lib, hrp) && lib.validHrp(hrp)
    requires var (h, jumbled) := lib.decode(s).value;
      && lib.encode(h, jumbled) == Some(s)
      && lib.jumble(lib.unjumble(jumbled).value) == Some(jumbled)
    ensures EncodeContainer(lib, hrp, DecodeContainer(lib, hrp, s).value) == Ok(s)
      <==> AllMinimal(DecodePayload(lib, hrp, s).value) && |DecodePayload(lib, hrp, s).value| >= 32
  {
    var raw := DecodePayload(lib, hrp, s).value;
    var items := DecodeItems(raw).value;
    ItemsReencodeIffMinimal(raw);
    PaddedAgree(lib, hrp, EncodeItems(items), raw, s);
  }

  /** A string that decodes to a payload is the encoding of that payload alone, if it is long enough. */
  lemma PaddedAgree<S>(lib: Library<S>, hrp: Hrp, again: Bytes, raw: Bytes, s: S)
    requires Inverts(lib, hrp) && lib.validHrp(hrp) && DecodePayload(lib, hrp, s) == Ok(raw)
    requires var (h, jumbled) := lib.decode(s).value;
      && lib.encode(h, jumbled) == Some(s)
      && lib.jumble(lib.unjumble(jumbled).value) == Some(jumbled)
    ensures EncodePayload(lib, hrp, again) == Ok(s) <==> again == raw && |raw| >= 32
  {
    var padded := lib.unjumble(lib.decode(s).value.1).value;
    assert padded == raw + Padding(hrp);
    if EncodePayload(lib, hrp, again) == Ok(s) {
      PayloadRoundTrip(lib, hrp, again);
    }
  }
}
