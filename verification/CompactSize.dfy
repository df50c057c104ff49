/** CompactSize integers: one tag byte, or a tag and two, four or eight bytes, least significant first. */
module CompactSize {
  import opened Results
  import opened Ints

  type byte = b: int | 0 <= b < 256
  type Bytes = seq<byte>

  /** A growing byte vector, and a reader's remaining input. */
  class Buffer {
    var bytes: Bytes

    constructor (b: Bytes)
      ensures bytes == b
    {
      bytes := b;
    }
  }

  /** Zip316Error, and the panic of a slice beyond its end. */
  datatype Error = HrpTooLong | InvalidHrp | PayloadTooShort | F4JumbleFailed | Bech32EncodeFailed
                 | Bech32DecodeFailed | HrpMismatch | PaddingInvalid | TlvInvalid | SlicePanic

  function Pow256(w: nat): int {
    if w == 0 then 1 else 256 * Pow256(w - 1)
  }

  /** to_le_bytes at a width of w bytes. */
  function LittleEndian(n: int, w: nat): (bs: Bytes)
    requires n >= 0
    ensures |bs| == w
  {
    if w == 0 then [] else [n % 256] + LittleEndian(n / 256, w - 1)
  }

  /** from_le_bytes. */
  function FromLittleEndian(bs: Bytes): (n: int)
    ensures n >= 0
  {
    if bs == [] then 0 else bs[0] + 256 * FromLittleEndian(bs[1..])
  }

  lemma {:induction false} LittleEndianInverts(n: int, w: nat)
    requires 0 <= n < Pow256(w)
    ensures FromLittleEndian(LittleEndian(n, w)) == n
    decreases w
  {
    if w > 0 {
      LittleEndianInverts(n / 256, w - 1);
      assert LittleEndian(n, w)[1..] == LittleEndian(n / 256, w - 1);
    }
  }

  lemma {:induction false} FromLittleEndianInverts(bs: Bytes)
    ensures 0 <= FromLittleEndian(bs) < Pow256(|bs|)
    ensures LittleEndian(FromLittleEndian(bs), |bs|) == bs
    decreases |bs|
  {
    if bs != [] {
      FromLittleEndianInverts(bs[1..]);
      var n := FromLittleEndian(bs);
      assert n % 256 == bs[0] && n / 256 == FromLittleEndian(bs[1..]);
      assert bs == [bs[0]] + bs[1..];
    }
  }

  lemma Powers()
    ensures Pow256(1) == 0x100 && Pow256(2) == 0x1_0000 && Pow256(4) == 0x1_0000_0000
    ensures Pow256(8) == TWO_64
  {
    assert Pow256(3) == 0x100_0000;
    assert Pow256(5) == 0x100_0000_0000;
    assert Pow256(6) == 0x1_0000_0000_0000;
    assert Pow256(7) == 0x100_0000_0000_0000;
  }

  /** How many bytes follow the tag of a number. */
  function Width(n: uint64): nat {
    if n <= 252 then 0 else if n <= 0xFFFF then 2 else if n <= 0xFFFF_FFFF then 4 else 8
  }

  function TagFor(width: nat): byte
    requires width in {2, 4, 8}
  {
    if width == 2 then 253 else if width == 4 then 254 else 255
  }

  /** How many bytes follow a tag byte. */
  function WidthOfTag(tag: byte): nat {
    if tag <= 252 then 0 else if tag == 253 then 2 else if tag == 254 then 4 else 8
  }

  function Encode(n: uint64): (bs: Bytes)
    ensures |bs| == 1 + Width(n)
  {
    if Width(n) == 0 then [n] else [TagFor(Width(n))] + LittleEndian(n, Width(n))
  }

  /** The number at the front of the input and what follows it; no minimality is demanded. */
  function Decode(bs: Bytes): (r: Result<(uint64, Bytes), Error>)
    ensures r.Ok? ==> |bs| > 0 && |bs| >= 1 + WidthOfTag(bs[0]) && r.value.1 == bs[1 + WidthOfTag(bs[0])..]
  {
    if bs == [] then Err(TlvInvalid) else
    var w := WidthOfTag(bs[0]);
    if w == 0 then Ok((bs[0], bs[1..]))
    else if |bs| < 1 + w then Err(TlvInvalid)
    else
      assert FromLittleEndian(bs[1..1 + w]) < TWO_64 by {
        FromLittleEndianInverts(bs[1..1 + w]);
        Powers();
      }
      Ok((FromLittleEndian(bs[1..1 + w]), bs[1 + w..]))
  }

  /** Byte i of a little-endian number is its i-th digit to base 256. */
  lemma {:induction false} LittleEndianDigit(n: int, w: nat, i: nat)
    requires n >= 0 && i < w
    ensures LittleEndian(n, w)[i] == if i == 0 then n % 256 else LittleEndian(n / 256, w - 1)[i - 1]
  {
  }

  lemma TwoBytes(n: int)
    requires n >= 0
    ensures LittleEndian(n, 2) == [n % 256, n / 256 % 256]
  {
    assert LittleEndian(n / 256, 1) == [n / 256 % 256] + LittleEndian(n / 256 / 256, 0);
  }

  lemma FourBytes(n: int)
    requires n >= 0
    ensures LittleEndian(n, 4) == [n % 256, n / 256 % 256, n / 256 / 256 % 256, n / 256 / 256 / 256 % 256]
  {
    TwoBytes(n / 256 / 256);
    assert LittleEndian(n / 256, 3) == [n / 256 % 256] + LittleEndian(n / 256 / 256, 2);
  }

  /** The bytes of an encoding: the number itself up to 252; else 253, 254 or 255 and the number in two, four
      or eight bytes, lowest first. */
  lemma EncodeBytes(n: uint64)
    ensures n <= 252 ==> Encode(n) == [n]
    ensures 252 < n <= 0xFFFF ==> Encode(n) == [253, n % 256, n / 256 % 256]
    ensures 0xFFFF < n <= 0xFFFF_FFFF ==>
      Encode(n) == [254, n % 256, n / 256 % 256, n / 256 / 256 % 256, n / 256 / 256 / 256 % 256]
    ensures n > 0xFFFF_FFFF ==> Encode(n) == [255] + LittleEndian(n, 8)
  {
    if 252 < n <= 0xFFFF {
      TwoBytes(n);
    } else if 0xFFFF < n <= 0xFFFF_FFFF {
      FourBytes(n);
    }
  }

  /** What a tag announces, minimal or not: reading fails exactly when fewer bytes follow. */
  lemma DecodeBytes(bs: Bytes)
    ensures bs == [] ==> Decode(bs) == Err(TlvInvalid)
    ensures bs != [] && bs[0] <= 252 ==> Decode(bs) == Ok((bs[0], bs[1..]))
    ensures bs != [] && bs[0] == 253 ==> (Decode(bs).Err? <==> |bs| < 3)
    ensures bs != [] && bs[0] == 253 && |bs| >= 3 ==>
      Decode(bs).value.0 == (bs[1] as int) + 256 * (bs[2] as int) && Decode(bs).value.1 == bs[3..]
    ensures bs != [] && bs[0] == 254 ==> (Decode(bs).Err? <==> |bs| < 5)
    ensures bs != [] && bs[0] == 254 && |bs| >= 5 ==>
      Decode(bs).value.0 == (bs[1] as int) + 256 * (bs[2] as int) + 0x1_0000 * ((bs[3] as int) + 256 * (bs[4] as int))
    ensures bs != [] && bs[0] == 254 && |bs| >= 5 ==> Decode(bs).value.1 == bs[5..]
    ensures bs != [] && bs[0] == 255 ==> (Decode(bs).Err? <==> |bs| < 9)
    ensures bs != [] && bs[0] == 255 && |bs| >= 9 ==> Decode(bs) == Ok((FromLittleEndian(bs[1..9]), bs[9..]))
  {
    if bs != [] && bs[0] == 253 && |bs| >= 3 {
      FromTwo(bs[1..3]);
    }
    if bs != [] && bs[0] == 254 && |bs| >= 5 {
      FromFour(bs[1..5]);
    }
  }

  lemma FromFour(bs: Bytes)
    requires |bs| == 4
    ensures FromLittleEndian(bs) ==
      (bs[0] as int) + 256 * (bs[1] as int) + 0x1_0000 * ((bs[2] as int) + 256 * (bs[3] as int))
  {
    FromTwo(bs[1..][1..]);
    assert FromLittleEndian(bs) == (bs[0] as int) + 256 * FromLittleEndian(bs[1..]);
  }

  lemma FromTwo(bs: Bytes)
    requires |bs| == 2
    ensures FromLittleEndian(bs) == (bs[0] as int) + 256 * (bs[1] as int)
  {
    assert bs[1..][1..] == [];
    assert FromLittleEndian(bs[1..]) == bs[1];
  }

  /** write_compact_size. */
  method WriteCompactSize(n: uint64, out: Buffer)
    modifies out
    ensures out.bytes == old(out.bytes) + Encode(n)
  {
    if n <= 252 {
      out.bytes := out.bytes + [n];
    } else if n <= 0xFFFF {
      out.bytes := out.bytes + [253];
      out.bytes := out.bytes + LittleEndian(n, 2);
    } else if n <= 0xFFFF_FFFF {
      out.bytes := out.bytes + [254];
      out.bytes := out.bytes + LittleEndian(n, 4);
    } else {
      out.bytes := out.bytes + [255];
      out.bytes := out.bytes + LittleEndian(n, 8);
    }
  }

  /** read_compact_size: on success the reader stands just past the number. */
  method ReadCompactSize(input: Buffer) returns (res: Result<uint64, Error>)
    modifies input
    ensures match Decode(old(input.bytes))
            case Ok((n, rest)) => res == Ok(n) && input.bytes == rest
            case Err(e) => res == Err(e)
  {
    if |input.bytes| == 0 {
      return Err(TlvInvalid);
    }
    ghost var before := input.bytes;
    var first := input.bytes[0];
    input.bytes := input.bytes[1..];
    if first <= 252 {
      return Ok(first);
    }
    var w := if first == 253 then 2 else if first == 254 then 4 else 8;
    if |input.bytes| < w {
      return Err(TlvInvalid);
    }
    assert input.bytes[..w] == before[1..1 + w] && input.bytes[w..] == before[1 + w..];
    FromLittleEndianInverts(input.bytes[..w]);
    Powers();
    var v := FromLittleEndian(input.bytes[..w]);
    input.bytes := input.bytes[w..];
    return Ok(v);
  }

  /** The encoding is self-delimiting: whatever follows, reading gives the number back and stops there. */
  lemma SelfDelimiting(n: uint64, rest: Bytes)
    ensures Decode(Encode(n) + rest) == Ok((n, rest))
  {
    var w, bs := Width(n), Encode(n) + rest;
    if w == 0 {
      assert bs[1..] == rest;
    } else {
      assert WidthOfTag(bs[0]) == w;
      assert bs[1..1 + w] == LittleEndian(n, w) && bs[1 + w..] == rest;
      Powers();
      LittleEndianInverts(n, w);
    }
  }

  /** The number at the front is written no longer than it has to be. */
  predicate Minimal(bs: Bytes)
    requires Decode(bs).Ok?
  {
    var n := Decode(bs).value.0;
    match WidthOfTag(bs[0])
    case 0 => true
    case 2 => n > 252
    case 4 => n > 0xFFFF
    case _ => n > 0xFFFF_FFFF
  }

  /** Bytes written back before the rest of the input never outgrow it, and equal it exactly when the
      numbers in it were minimal; nothing else has the same length. */
  ghost predicate Reproduces(written: Bytes, rest: Bytes, bs: Bytes, minimal: bool) {
    && (written + rest == bs <==> minimal)
    && |written| + |rest| <= |bs|
    && (|written| + |rest| == |bs| ==> minimal)
  }

  /** Writing back what was read gives the same bytes exactly when they were minimal, and never more. */
  lemma ReencodeIffMinimal(bs: Bytes)
    requires Decode(bs).Ok?
    ensures var (n, rest) := Decode(bs).value;
      Reproduces(Encode(n), rest, bs, Minimal(bs))
  {
    var (n, rest) := Decode(bs).value;
    var w := WidthOfTag(bs[0]);
    if w > 0 {
      FromLittleEndianInverts(bs[1..1 + w]);
      Powers();
      assert bs == [bs[0]] + bs[1..1 + w] + rest;
    } else {
      assert bs == [bs[0]] + rest;
    }
    if Minimal(bs) {
      assert Width(n) == w;
    } else {
      assert |Encode(n) + rest| < |bs|;
    }
  }
}
