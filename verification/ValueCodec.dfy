/** The self-checking form in which the wrapper stores values: length, value, and a copy or a digest of it. */
module ValueCodec {
  import opened Bytes
  import opened Md5

  const NEED_MD5_VALUE_LEN: nat := 1024
  const MD5_STR_LEN: nat := 16
  const LEN_SIZE: nat := 4

  type Value = seq<byte>

  datatype Verdict = Verified(value: Value) | Mess

  /** The length is kept in 32 bits, and the digest covers only as many bytes as that says. */
  function EncodeValueStr(compress: Compression, val: Value): (stored: Value)
    ensures LEN_SIZE + |val| <= |stored|
  {
    var valSize := ToUint32(|val|);
    EncodeLE32(valSize) + val + if valSize > NEED_MD5_VALUE_LEN then Digest(compress, val[..valSize]) else val
  }

  function VerifyShmValue(compress: Compression, tblval: Value): Verdict
    requires LEN_SIZE <= |tblval|
  {
    var valLen := DecodeLE32(tblval[..LEN_SIZE]);
    var valStr := tblval[LEN_SIZE..];
    if valLen > NEED_MD5_VALUE_LEN then
      if |tblval| < LEN_SIZE + valLen + MD5_STR_LEN then Mess
      else if Digest(compress, valStr[..valLen]) == valStr[valLen..valLen + MD5_STR_LEN] then Verified(valStr[..valLen])
      else Mess
    else
      if |tblval| < LEN_SIZE + ToUint32(valLen * 2) then Mess
      else if valStr[..valLen] == valStr[valLen..2 * valLen] then Verified(valStr[..valLen])
      else Mess
  }

  lemma PrefixParts(a: seq<byte>, b: seq<byte>, c: seq<byte>, s: seq<byte>)
    requires a + b + c <= s
    ensures |a| + |b| + |c| <= |s| && s[..|a|] == a
    ensures s[|a|..][..|b|] == b && s[|a|..][|b|..|b| + |c|] == c
  {
    assert s[..|a| + |b| + |c|] == a + b + c;
  }

  /** What follows length and value. */
  function Check(compress: Compression, val: Value): Value {
    if |val| > NEED_MD5_VALUE_LEN then Digest(compress, val) else val
  }

  lemma EncodingParts(compress: Compression, val: Value)
    requires |val| < TWO_TO_32
    ensures EncodeValueStr(compress, val) == EncodeLE32(|val|) + val + Check(compress, val)
  {
    assert val[..|val|] == val;
  }

  lemma VerifiedMeansPrefix(compress: Compression, tblval: Value, val: Value)
    requires LEN_SIZE <= |tblval| && VerifyShmValue(compress, tblval) == Verified(val)
    ensures EncodeValueStr(compress, val) <= tblval && |val| < TWO_TO_32
  {
    var n, rest := |val|, tblval[LEN_SIZE..];
    EncodeDecodeLE32(tblval[..LEN_SIZE]);
    EncodingParts(compress, val);
    assert rest[..n] == val && rest[n..n + |Check(compress, val)|] == Check(compress, val);
    assert tblval[..LEN_SIZE + n + |Check(compress, val)|] == EncodeLE32(n) + val + Check(compress, val);
  }

  lemma VerifyParts(compress: Compression, tblval: Value, val: Value)
    requires |val| < TWO_TO_32 && LEN_SIZE + |val| + |Check(compress, val)| <= |tblval|
    requires DecodeLE32(tblval[..LEN_SIZE]) == |val| && tblval[LEN_SIZE..][..|val|] == val
    requires tblval[LEN_SIZE..][|val|..|val| + |Check(compress, val)|] == Check(compress, val)
    ensures VerifyShmValue(compress, tblval) == Verified(val)
  {
  }

  lemma PrefixVerifies(compress: Compression, tblval: Value, val: Value)
    requires |val| < TWO_TO_32 && EncodeValueStr(compress, val) <= tblval
    ensures LEN_SIZE <= |tblval| && VerifyShmValue(compress, tblval) == Verified(val)
  {
    EncodingParts(compress, val);
    PrefixParts(EncodeLE32(|val|), val, Check(compress, val), tblval);
    DecodeEncodeLE32(|val|);
    VerifyParts(compress, tblval, val);
  }

  /** A stored string is accepted as `val` exactly when it starts with the encoding of `val`. */
  lemma VerifyIffPrefix(compress: Compression, tblval: Value, val: Value)
    requires LEN_SIZE <= |tblval|
    ensures VerifyShmValue(compress, tblval) == Verified(val) <==> |val| < TWO_TO_32 && EncodeValueStr(compress, val) <= tblval
  {
    if VerifyShmValue(compress, tblval) == Verified(val) {
      VerifiedMeansPrefix(compress, tblval, val);
    }
    if |val| < TWO_TO_32 && EncodeValueStr(compress, val) <= tblval {
      PrefixVerifies(compress, tblval, val);
    }
  }

  /** A value comes back exactly when its length fits 32 bits. */
  lemma RoundTrip(compress: Compression, val: Value)
    ensures VerifyShmValue(compress, EncodeValueStr(compress, val)) == Verified(val) <==> |val| < TWO_TO_32
  {
    VerifyIffPrefix(compress, EncodeValueStr(compress, val), val);
  }

  /** No stored string can be taken for two values: the encodings are free of each other's prefixes. */
  lemma EncodingsApart(compress: Compression, v: Value, w: Value)
    requires |v| < TWO_TO_32 && |w| < TWO_TO_32
    ensures EncodeValueStr(compress, v) <= EncodeValueStr(compress, w) <==> v == w
  {
    VerifyIffPrefix(compress, EncodeValueStr(compress, w), v);
    VerifyIffPrefix(compress, EncodeValueStr(compress, w), w);
  }

  /** What an encoding looks like, and from which length on it carries a digest instead of a copy. */
  lemma EncodingLayout(compress: Compression, val: Value)
    requires |val| < TWO_TO_32
    ensures var stored := EncodeValueStr(compress, val);
            && |stored| == (if |val| <= 1024 then 4 + 2 * |val| else 20 + |val|)
            && DecodeLE32(stored[..4]) == |val| && stored[4..4 + |val|] == val
            && stored[4 + |val|..] == if |val| <= 1024 then val else Digest(compress, val)
  {
    EncodingParts(compress, val);
    DecodeEncodeLE32(|val|);
    PrefixParts(EncodeLE32(|val|), val, Check(compress, val), EncodeValueStr(compress, val));
  }
}
