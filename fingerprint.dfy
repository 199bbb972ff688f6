/** The colon grouping of `get_private_key_fingerprint` in coco/utils.py
    (lines 281-283): the key's fingerprint is written in hexadecimal and cut
    into pairs of hex digits joined by `:`. Reading the fingerprint from the
    key is outside the model; the fingerprint's bytes are a parameter. */
module Fingerprint {
  import opened Strings

  const Colon: byte := 58

  /** `[line[i:i+2] for i in range(0, len(line), 2)]`: consecutive two-byte
      slices, the last one shorter when the length is odd. */
  function Pairs(line: Bytes): (r: seq<Bytes>)
    decreases |line|
  {
    if |line| == 0 then []
    else if |line| <= 2 then [line]
    else [line[..2]] + Pairs(line[2..])
  }

  /** `b':'.join(pairs)`. */
  function ColonGroups(line: Bytes): Bytes
  {
    Join([Colon], Pairs(line))
  }

  /** The lower-case hex digit of a value below 16, as `hexlify` writes it. */
  function HexDigit(d: int): (b: byte)
    requires 0 <= d < 16
  {
    if d < 10 then (48 + d) as byte else (87 + d) as byte
  }

  predicate IsHexDigit(b: byte)
  {
    48 <= b <= 57 || 97 <= b <= 102
  }

  /** The two hex digits of one byte. */
  function HexByte(b: byte): (r: Bytes)
    ensures |r| == 2 && IsHexDigit(r[0]) && IsHexDigit(r[1])
  {
    [HexDigit(b as int / 16), HexDigit(b as int % 16)]
  }

  /** `hexlify(data)`. */
  function Hexlify(data: Bytes): (r: Bytes)
    ensures |r| == 2 * |data|
    ensures forall i :: 0 <= i < |r| ==> IsHexDigit(r[i])
  {
    if |data| == 0 then [] else HexByte(data[0]) + Hexlify(data[1..])
  }

  /** `get_private_key_fingerprint(key)` for a key whose fingerprint is `fingerprint`. */
  function PrivateKeyFingerprint(fingerprint: Bytes): Bytes
  {
    ColonGroups(Hexlify(fingerprint))
  }

  /** The pairs put back together give the line, and every pair but an odd
      last one has two bytes. */
  lemma {:induction false} PairsShape(line: Bytes)
    ensures Concat(Pairs(line)) == line
    ensures |Pairs(line)| == (|line| + 1) / 2
    ensures forall i :: 0 <= i < |Pairs(line)| ==>
      |Pairs(line)[i]| == 2 || (i == |Pairs(line)| - 1 && |line| % 2 == 1 && |Pairs(line)[i]| == 1)
    decreases |line|
  {
    if |line| > 2 {
      PairsShape(line[2..]);
      assert line[..2] + line[2..] == line;
    } else if |line| > 0 {
      assert Concat(Pairs(line)) == line + Concat([]);
    }
  }

  /** In the hex text of the fingerprint the pairs are exactly the hex
      digits of its bytes, one pair per byte. */
  lemma {:induction false} PairsOfHexlify(data: Bytes)
    ensures Pairs(Hexlify(data)) == seq(|data|, i requires 0 <= i < |data| => HexByte(data[i]))
    decreases |data|
  {
    if |data| > 0 {
      var h := Hexlify(data);
      PairsOfHexlify(data[1..]);
      if |data| == 1 {
        assert h == HexByte(data[0]);
      } else {
        assert h[..2] == HexByte(data[0]) && h[2..] == Hexlify(data[1..]);
      }
    }
  }

  /** Splitting the grouped text on `:` gives the pairs back, and with them
      the hex text, provided there is any; hex digits never contain `:`. */
  lemma UngroupFingerprint(fingerprint: Bytes)
    requires |fingerprint| > 0
    ensures var h := Hexlify(fingerprint);
      Split(Colon, PrivateKeyFingerprint(fingerprint)) == Pairs(h)
      && Concat(Split(Colon, PrivateKeyFingerprint(fingerprint))) == h
  {
    var h := Hexlify(fingerprint);
    HexPairsHaveNoColon(fingerprint);
    SplitJoin(Colon, Pairs(h));
    PairsShape(h);
  }

  lemma HexPairsHaveNoColon(fingerprint: Bytes)
    requires |fingerprint| > 0
    ensures var parts := Pairs(Hexlify(fingerprint));
      |parts| >= 1 && forall i :: 0 <= i < |parts| ==> Colon !in parts[i]
  {
    var parts := Pairs(Hexlify(fingerprint));
    PairsOfHexlify(fingerprint);
    forall i | 0 <= i < |parts| ensures Colon !in parts[i] {
      var p := HexByte(fingerprint[i]);
      assert parts[i] == p;
      assert p == [p[0], p[1]];
    }
  }

  /** The grouped text has one `:` between each two pairs and nothing else
      added: its length is three bytes per fingerprint byte, less one. */
  lemma {:induction false} FingerprintLength(fingerprint: Bytes)
    requires |fingerprint| > 0
    ensures |PrivateKeyFingerprint(fingerprint)| == 3 * |fingerprint| - 1
  {
    PairsOfHexlify(fingerprint);
    JoinPairsLength(seq(|fingerprint|, i requires 0 <= i < |fingerprint| => HexByte(fingerprint[i])));
  }

  lemma {:induction false} JoinPairsLength(parts: seq<Bytes>)
    requires |parts| > 0 && forall i :: 0 <= i < |parts| ==> |parts[i]| == 2
    ensures |Join([Colon], parts)| == 3 * |parts| - 1
    decreases |parts|
  {
    if |parts| > 1 {
      JoinPairsLength(parts[1..]);
    }
  }
}
