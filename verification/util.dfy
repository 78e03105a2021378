/** `src/util.rs`: `hex_to_bytes`, which turns hexadecimal text into bytes,
    and the `EMPTY_RDB` snapshot of `src/redis_store.rs` that it decodes. */
module Util {
  import opened Base

  /** `char::to_digit(16)`: the value of an ASCII hexadecimal digit in
      either case. */
  function HexValue(c: char): (r: Option<nat>)
    ensures r.Some? ==> r.value < 16
  {
    if '0' <= c <= '9' then Some(c as int - '0' as int)
    else if 'a' <= c <= 'f' then Some(c as int - 'a' as int + 10)
    else if 'A' <= c <= 'F' then Some(c as int - 'A' as int + 10)
    else None
  }

  /** `filter_map(|c| c.to_digit(16))`: the values of the hexadecimal
      digits of `s`, in order; every other character is skipped. */
  function HexDigits(s: string): (ds: seq<nat>)
    ensures |ds| <= |s|
    ensures forall i :: 0 <= i < |ds| ==> ds[i] < 16
  {
    if s == [] then []
    else
      match HexValue(s[0])
      case Some(d) => [d] + HexDigits(s[1..])
      case None => HexDigits(s[1..])
  }

  /** The `while let` loop: digits are taken two at a time, the first as
      the high nibble; a last unpaired digit is dropped. The `as u8` cast
      truncates, which loses nothing on two digits below 16. */
  function PairUp(ds: seq<nat>): (bs: seq<byte>)
    ensures |bs| == |ds| / 2
  {
    if |ds| < 2 then [] else [((16 * ds[0] + ds[1]) % 0x100) as byte] + PairUp(ds[2..])
  }

  /** Byte `i` is digit `2i` as the high nibble and digit `2i + 1` as the
      low one. */
  lemma {:induction false} PairUpAt(ds: seq<nat>, i: nat)
    requires forall j :: 0 <= j < |ds| ==> ds[j] < 16
    requires i < |ds| / 2
    ensures PairUp(ds)[i] as int == 16 * ds[2 * i] + ds[2 * i + 1]
  {
    if i > 0 {
      PairUpAt(ds[2..], i - 1);
      assert ds[2..][2 * (i - 1)] == ds[2 * i] && ds[2..][2 * (i - 1) + 1] == ds[2 * i + 1];
    }
  }

  /** `hex_to_bytes` as written: the check that should reject an odd
      number of digits looks at the number of bytes produced instead. */
  function HexToBytes(s: string): (r: Option<seq<byte>>)
    ensures r.None? <==> (|HexDigits(s)| / 2) % 2 == 1
    ensures r.Some? ==> r.value == PairUp(HexDigits(s))
  {
    var bytes := PairUp(HexDigits(s));
    if |bytes| % 2 != 0 then None else Some(bytes)
  }

  /** `hex_to_bytes` as evidently intended: an odd number of hexadecimal
      digits is rejected, and any even number is decoded. */
  function HexToBytesChecked(s: string): (r: Option<seq<byte>>)
    ensures r.None? <==> |HexDigits(s)| % 2 == 1
    ensures r.Some? ==> |r.value| == |HexDigits(s)| / 2 && r.value == PairUp(HexDigits(s))
  {
    var ds := HexDigits(s);
    if |ds| % 2 != 0 then None else Some(PairUp(ds))
  }

  /** The lower-case hexadecimal digit of a nibble. */
  function NibbleChar(n: nat): (c: char)
    requires n < 16
    ensures HexValue(c) == Some(n)
  {
    if n < 10 then ('0' as int + n) as char else ('a' as int + n - 10) as char
  }

  /** Hexadecimal text of bytes, two digits per byte, high nibble first:
      the reference encoding `hex_to_bytes` is meant to invert. */
  function EncodeHex(bs: seq<byte>): (s: string)
    ensures |s| == 2 * |bs|
  {
    if bs == [] then []
    else [NibbleChar(bs[0] as int / 16), NibbleChar(bs[0] as int % 16)] + EncodeHex(bs[1..])
  }

  lemma {:induction false} HexDigitsConcat(a: string, b: string)
    ensures HexDigits(a + b) == HexDigits(a) + HexDigits(b)
  {
    if a != [] {
      assert (a + b)[0] == a[0] && (a + b)[1..] == a[1..] + b;
      HexDigitsConcat(a[1..], b);
      match HexValue(a[0])
      case Some(x) =>
        assert HexDigits(a + b) == [x] + (HexDigits(a[1..]) + HexDigits(b));
        assert [x] + (HexDigits(a[1..]) + HexDigits(b)) == ([x] + HexDigits(a[1..])) + HexDigits(b);
      case None =>
    } else {
      assert a + b == b;
    }
  }

  /** The digits of an encoding are the nibbles of the bytes. */
  lemma {:induction false} HexDigitsOfEncodeHex(bs: seq<byte>)
    ensures |HexDigits(EncodeHex(bs))| == 2 * |bs|
    ensures PairUp(HexDigits(EncodeHex(bs))) == bs
  {
    if bs != [] {
      var x := bs[0] as int;
      var hi := NibbleChar(x / 16);
      var lo := NibbleChar(x % 16);
      var tail := HexDigits(EncodeHex(bs[1..]));
      HexDigitsOfEncodeHex(bs[1..]);
      assert EncodeHex(bs) == [hi, lo] + EncodeHex(bs[1..]);
      HexDigitsConcat([hi, lo], EncodeHex(bs[1..]));
      NibbleDigits(x);
      PairUpCons(x / 16, x % 16, tail);
      assert [bs[0]] + bs[1..] == bs;
    }
  }

  lemma {:induction false} NibbleDigits(x: nat)
    requires x < 256
    ensures HexDigits([NibbleChar(x / 16), NibbleChar(x % 16)]) == [x / 16, x % 16]
  {
    var lo := NibbleChar(x % 16);
    assert [NibbleChar(x / 16), lo][1..] == [lo];
    assert [lo][1..] == [];
  }

  lemma {:induction false} PairUpCons(hi: nat, lo: nat, ds: seq<nat>)
    requires hi < 16 && lo < 16
    ensures PairUp([hi, lo] + ds) == [(16 * hi + lo) as byte] + PairUp(ds)
  {
    assert ([hi, lo] + ds)[2..] == ds;
  }

  /** Round trip: the corrected decoder inverts the encoding for every
      byte sequence. */
  lemma {:induction false} HexRoundTrip(bs: seq<byte>)
    ensures HexToBytesChecked(EncodeHex(bs)) == Some(bs)
  {
    HexDigitsOfEncodeHex(bs);
  }

  /** As written, the round trip holds only for an even number of bytes:
      decoding the encoding of an odd number of bytes fails. */
  lemma {:induction false} HexToBytesAsWritten(bs: seq<byte>)
    ensures HexToBytes(EncodeHex(bs)) == (if |bs| % 2 == 0 then Some(bs) else None)
  {
    HexDigitsOfEncodeHex(bs);
  }

  /** The smallest input the check rejects by mistake: two digits, one
      whole byte, are refused as written and decoded when corrected. */
  lemma {:induction false} HexToBytesOneByte()
    ensures HexToBytes("ab") == None && HexToBytesChecked("ab") == Some([0xab])
  {
    assert HexDigits("ab") == [10, 11] by {
      assert "ab"[1..] == "b" && "b"[1..] == [];
    }
    assert PairUp([10, 11]) == [0xab] by {
      assert [10, 11][2..] == [];
    }
  }

  /** The smallest input the check lets through by mistake: five digits
      decode as written, the last digit silently dropped, and are refused
      when corrected. */
  lemma {:induction false} HexToBytesFiveDigits()
    ensures HexToBytes("abcde") == Some([0xab, 0xcd]) && HexToBytesChecked("abcde") == None
  {
    assert HexDigits("abcde") == [10, 11, 12, 13, 14] by {
      assert "abcde"[1..] == "bcde" && "bcde"[1..] == "cde" && "cde"[1..] == "de";
      assert "de"[1..] == "e" && "e"[1..] == [];
    }
    assert PairUp([10, 11, 12, 13, 14]) == [0xab, 0xcd] by {
      assert [10, 11, 12, 13, 14][2..] == [12, 13, 14];
      assert [12, 13, 14][2..] == [14];
      assert PairUp([14]) == [];
    }
  }

  // ---------------------------------------------------------------------
  // EMPTY_RDB

  /** Every character of `s` is a hexadecimal digit. */
  predicate AllHex(s: string) {
    forall i :: 0 <= i < |s| ==> HexValue(s[i]).Some?
  }

  lemma {:induction false} HexDigitsAllHex(s: string)
    requires AllHex(s)
    ensures |HexDigits(s)| == |s|
  {
    if s != [] {
      assert AllHex(s[1..]) by {
        forall i | 0 <= i < |s[1..]| ensures HexValue(s[1..][i]).Some? {
          assert s[1..][i] == s[i + 1];
        }
      }
      HexDigitsAllHex(s[1..]);
    }
  }

  /** `EMPTY_RDB`, the hexadecimal text of an empty RDB snapshot, in
      pieces of 32 digits (the last one 16). */
  const RDB_PART_1: string := "524544495330303131fa097265646973"
  const RDB_PART_2: string := "2d76657205372e322e30fa0a72656469"
  const RDB_PART_3: string := "732d62697473c040fa056374696d65c2"
  const RDB_PART_4: string := "6d08bc65fa08757365642d6d656dc2b0"
  const RDB_PART_5: string := "c41000fa08616f662d62617365c000ff"
  const RDB_PART_6: string := "f06e3bfec0ff5aa2"

  const EMPTY_RDB: string := RDB_PART_1 + RDB_PART_2 + RDB_PART_3 + RDB_PART_4 + RDB_PART_5 + RDB_PART_6

  lemma {:induction false} EmptyRdbAllHex()
    ensures AllHex(EMPTY_RDB) && |EMPTY_RDB| == 176
  {
    RdbPartsHexA();
    RdbPartsHexB();
    RdbPartsHexC();
    AllHexConcat(RDB_PART_1, RDB_PART_2);
    AllHexConcat(RDB_PART_1 + RDB_PART_2, RDB_PART_3);
    AllHexConcat(RDB_PART_1 + RDB_PART_2 + RDB_PART_3, RDB_PART_4);
    AllHexConcat(RDB_PART_1 + RDB_PART_2 + RDB_PART_3 + RDB_PART_4, RDB_PART_5);
    AllHexConcat(RDB_PART_1 + RDB_PART_2 + RDB_PART_3 + RDB_PART_4 + RDB_PART_5, RDB_PART_6);
  }

  lemma {:induction false} RdbPartsHexA()
    ensures AllHex(RDB_PART_1) && |RDB_PART_1| == 32
    ensures AllHex(RDB_PART_2) && |RDB_PART_2| == 32
  {
  }

  lemma {:induction false} RdbPartsHexB()
    ensures AllHex(RDB_PART_3) && |RDB_PART_3| == 32
    ensures AllHex(RDB_PART_4) && |RDB_PART_4| == 32
  {
  }

  lemma {:induction false} RdbPartsHexC()
    ensures AllHex(RDB_PART_5) && |RDB_PART_5| == 32
    ensures AllHex(RDB_PART_6) && |RDB_PART_6| == 16
  {
  }

  lemma {:induction false} AllHexConcat(a: string, b: string)
    requires AllHex(a) && AllHex(b)
    ensures AllHex(a + b)
  {
    assert forall i :: |a| <= i < |a + b| ==> (a + b)[i] == b[i - |a|];
  }

  /** The snapshot decodes to 88 bytes with either decoder, so the `unwrap`
      of its decoding never panics. */
  lemma {:induction false} EmptyRdbDecodes()
    ensures HexToBytes(EMPTY_RDB).Some? && |HexToBytes(EMPTY_RDB).value| == 88
    ensures HexToBytesChecked(EMPTY_RDB) == HexToBytes(EMPTY_RDB)
  {
    EmptyRdbAllHex();
    HexDigitsAllHex(EMPTY_RDB);
  }

  /** The decoded snapshot. */
  function EmptyRdbBytes(): (bs: seq<byte>)
    ensures |bs| == 88
  {
    EmptyRdbDecodes();
    HexToBytes(EMPTY_RDB).value
  }

  /** The snapshot the server sends is what either decoder makes of
      `EMPTY_RDB`. */
  lemma {:induction false} EmptyRdbBytesDecoded()
    ensures HexToBytesChecked(EMPTY_RDB) == Some(EmptyRdbBytes())
    ensures HexToBytes(EMPTY_RDB) == Some(EmptyRdbBytes())
  {
    EmptyRdbDecodes();
  }
}
