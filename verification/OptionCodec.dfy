/**
  Hop-by-Hop options and the V6Coin transaction option (code/go/pkg/ipv6/header.go), in the format of
  sections 4.2 and 4.3 of RFC 8200.

  The serializers fill a buffer by offset, the parsers advance an offset; each is proved to follow a
  function on byte strings.  Main results: parsing what was serialized gives the options back,
  followed by at most one PadN, exactly when the header fits in 2040 bytes; serializing that again
  gives the same bytes; and a transaction survives the whole trip exactly when its addresses have 16
  bytes, its signature 32 and its reserved part at most 172.
 */
module OptionCodec {

  newtype byte = x: int | 0 <= x < 256
  type Bytes = seq<byte>

  type uint16 = n: nat | n < 0x1_0000
  type uint64 = n: nat | n < 0x1_0000_0000_0000_0000

  const NEXT_HEADER_NONE: byte := 59
  const V6COIN_OPTION: byte := 0x7F
  const PADN: byte := 1

  datatype Option = Option(optionType: byte, optDataLen: byte, data: Bytes)
  datatype Header = Header(nextHeader: byte, hdrExtLen: byte, options: seq<Option>)
  datatype Result<T> = Ok(value: T) | TooShort | NotFound

  // ---------- Buffers ----------

  function Zeros(n: nat): (z: Bytes)
    ensures |z| == n
    ensures forall i :: 0 <= i < n ==> z[i] == 0
  {
    seq(n, _ => 0)
  }

  function Min(a: nat, b: nat): nat {
    if a <= b then a else b
  }

  /** Go's copy(buffer[offset:], data): stops at the end of the buffer. */
  function CopyAt(buffer: Bytes, offset: nat, data: Bytes): (r: Bytes)
    requires offset <= |buffer|
    ensures |r| == |buffer|
  {
    var n := Min(|data|, |buffer| - offset);
    buffer[..offset] + data[..n] + buffer[offset + n..]
  }

  // ---------- Serializing ----------

  function OptionsLen(options: seq<Option>): nat {
    if options == [] then 0 else OptionsLen(options[..|options| - 1]) + 2 + options[|options| - 1].optDataLen as nat
  }

  /** Padding that brings a length to a multiple of eight. */
  function PadLen(dataLen: nat): (p: nat)
    ensures p < 8 && (dataLen + p) % 8 == 0
  {
    (8 - dataLen % 8) % 8
  }

  function TotalLen(options: seq<Option>): nat {
    2 + OptionsLen(options) + PadLen(2 + OptionsLen(options))
  }

  /** Nothing, a Pad1, or a PadN with zero data. */
  function PadBytes(padLen: nat): (p: Bytes)
    requires padLen < 8
    ensures |p| == padLen
  {
    if padLen == 0 then [] else if padLen == 1 then [0] else [PADN, (padLen - 2) as byte] + Zeros(padLen - 2)
  }

  function ExtLenByte(total: nat): byte
    requires total >= 8
  {
    ((((total - 2 + 7) / 8) - 1) % 256) as byte
  }

  function WriteOption(buffer: Bytes, offset: nat, o: Option): (r: Bytes)
    requires offset + 2 <= |buffer|
    ensures |r| == |buffer|
  {
    CopyAt(buffer[offset := o.optionType][offset + 1 := o.optDataLen], offset + 2, o.data)
  }

  /** Writes the options one after the other, starting at offset two. */
  function Fill(buffer: Bytes, options: seq<Option>): (r: Bytes)
    requires 2 + OptionsLen(options) <= |buffer|
    ensures |r| == |buffer|
  {
    if options == [] then buffer else
      var init, last := options[..|options| - 1], options[|options| - 1];
      WriteOption(Fill(buffer, init), 2 + OptionsLen(init), last)
  }

  function Serialize(h: Header): (r: Bytes)
    ensures |r| == TotalLen(h.options)
  {
    var dataLen := 2 + OptionsLen(h.options);
    var total := TotalLen(h.options);
    var start := [h.nextHeader, ExtLenByte(total)] + Zeros(total - 2);
    Fill(start, h.options)[..dataLen] + PadBytes(PadLen(dataLen))
  }

  // ---------- Parsing ----------

  /** The options from `offset` on, as long as one starts inside the header and fits the data. */
  function ParseOptions(data: Bytes, offset: nat, headerLen: nat): seq<Option>
    decreases |data| - offset
  {
    if offset < headerLen && offset + 2 <= |data| && offset + 2 + data[offset + 1] as nat <= |data| then
      var len := data[offset + 1];
      [Option(data[offset], len, data[offset + 2..offset + 2 + len as nat])]
      + ParseOptions(data, offset + 2 + len as nat, headerLen)
    else []
  }

  lemma ParseStep(data: Bytes, offset: nat, headerLen: nat)
    ensures ParseOptions(data, offset, headerLen) ==
            if offset < headerLen && offset + 2 <= |data| && offset + 2 + data[offset + 1] as nat <= |data| then
              [Option(data[offset], data[offset + 1], data[offset + 2..offset + 2 + data[offset + 1] as nat])]
              + ParseOptions(data, offset + 2 + data[offset + 1] as nat, headerLen)
            else []
  {
  }

  /** The header length is computed in eight bits, so a length byte of 255 counts as zero. */
  function HeaderLen(hdrExtLen: byte): nat {
    ((hdrExtLen as nat + 1) % 256) * 8
  }

  function Parse(data: Bytes): Result<Header> {
    if |data| < 8 then TooShort
    else Ok(Header(data[0], data[1], ParseOptions(data, 2, HeaderLen(data[1]))))
  }

  // ---------- The layout of well-formed options ----------

  ghost predicate WellFormed(options: seq<Option>) {
    forall i :: 0 <= i < |options| ==> |options[i].data| == options[i].optDataLen as nat
  }

  function EncodeOption(o: Option): Bytes {
    [o.optionType, o.optDataLen] + o.data
  }

  function Encode(options: seq<Option>): Bytes {
    if options == [] then [] else Encode(options[..|options| - 1]) + EncodeOption(options[|options| - 1])
  }

  lemma EncodeStep(options: seq<Option>)
    ensures options == [] ==> Encode(options) == [] && OptionsLen(options) == 0
    ensures options != [] ==>
      var init, last := options[..|options| - 1], options[|options| - 1];
      && Encode(options) == Encode(init) + EncodeOption(last)
      && OptionsLen(options) == OptionsLen(init) + 2 + last.optDataLen as nat
  {
  }

  lemma {:induction false} EncodeLen(options: seq<Option>)
    requires WellFormed(options)
    ensures |Encode(options)| == OptionsLen(options)
  {
    if options != [] {
      EncodeLen(options[..|options| - 1]);
    }
  }

  lemma WriteOptionLayout(front: Bytes, back: Bytes, o: Option)
    requires |o.data| == o.optDataLen as nat && |back| >= 2 + |o.data|
    ensures WriteOption(front + back, |front|, o) == front + EncodeOption(o) + back[2 + |o.data|..]
  {
  }

  lemma {:induction false} FillLayout(front: Bytes, back: Bytes, options: seq<Option>)
    requires |front| == 2 && WellFormed(options) && OptionsLen(options) <= |back|
    ensures Fill(front + back, options) == front + Encode(options) + back[OptionsLen(options)..]
  {
    if options == [] {
      assert front + [] + back == front + back;
    } else {
      hide WriteOption, EncodeOption;
      var init, last := options[..|options| - 1], options[|options| - 1];
      FillLayout(front, back, init);
      EncodeLen(init);
      FillStep(front + Encode(init), back, OptionsLen(init), last);
      assert front + Encode(init) + EncodeOption(last) == front + Encode(options);
    }
  }

  lemma FillStep(done: Bytes, back: Bytes, used: nat, o: Option)
    requires |o.data| == o.optDataLen as nat && used + 2 + |o.data| <= |back|
    ensures WriteOption(done + back[used..], |done|, o) == done + EncodeOption(o) + back[used + 2 + |o.data|..]
  {
    hide WriteOption, EncodeOption;
    WriteOptionLayout(done, back[used..], o);
    assert back[used..][2 + |o.data|..] == back[used + 2 + |o.data|..];
  }

  /** The length byte counts eight-byte units beyond the first. */
  lemma ExtLenIs(options: seq<Option>)
    ensures TotalLen(options) % 8 == 0 && TotalLen(options) >= 8
    ensures ExtLenByte(TotalLen(options)) as nat == (TotalLen(options) / 8 - 1) % 256
  {
    var q := TotalLen(options) / 8;
    assert TotalLen(options) == 8 * q;
    assert (8 * q - 2 + 7) / 8 == q;
  }

  lemma SerializeLayout(h: Header)
    requires WellFormed(h.options)
    ensures Serialize(h) == [h.nextHeader, ExtLenByte(TotalLen(h.options))] + Encode(h.options) + PadBytes(PadLen(2 + OptionsLen(h.options)))
  {
    hide Fill, Encode, OptionsLen, PadLen, PadBytes, ExtLenByte, Zeros, WellFormed;
    var total := TotalLen(h.options);
    var front, back := [h.nextHeader, ExtLenByte(total)], Zeros(total - 2);
    FillLayout(front, back, h.options);
    EncodeLen(h.options);
    FrontOf(front + Encode(h.options), back[OptionsLen(h.options)..]);
  }

  lemma FrontOf(front: Bytes, back: Bytes)
    ensures (front + back)[..|front|] == front
  {
  }

  // ---------- Parsing what was serialized ----------

  /** What the padding parses to: nothing, or one PadN option. */
  function Padding(padLen: nat): seq<Option>
    requires padLen < 8
  {
    if padLen < 2 then [] else [Option(PADN, (padLen - 2) as byte, Zeros(padLen - 2))]
  }

  lemma WellFormedParts(options: seq<Option>)
    requires WellFormed(options) && options != []
    ensures WellFormed(options[..|options| - 1])
    ensures |options[|options| - 1].data| == options[|options| - 1].optDataLen as nat
  {
  }

  lemma ParseOne(front: Bytes, o: Option, back: Bytes, headerLen: nat)
    requires |o.data| == o.optDataLen as nat && |front| < headerLen
    ensures ParseOptions(front + EncodeOption(o) + back, |front|, headerLen)
         == [o] + ParseOptions(front + EncodeOption(o) + back, |front| + 2 + |o.data|, headerLen)
  {
    var data := front + EncodeOption(o) + back;
    assert data[|front|] == o.optionType && data[|front| + 1] == o.optDataLen;
    assert data[|front| + 2..|front| + 2 + |o.data|] == o.data;
  }

  /** Options laid out one after the other are parsed one after the other. */
  lemma {:induction false} ParseEncoded(front: Bytes, options: seq<Option>, back: Bytes, headerLen: nat)
    requires WellFormed(options) && |front| + OptionsLen(options) <= headerLen
    ensures ParseOptions(front + Encode(options) + back, |front|, headerLen)
         == options + ParseOptions(front + Encode(options) + back, |front| + OptionsLen(options), headerLen)
  {
    hide ParseOptions, EncodeOption, WellFormed, Encode, OptionsLen;
    EncodeStep(options);
    if options == [] {
      assert options + ParseOptions(front + Encode(options) + back, |front|, headerLen)
          == ParseOptions(front + Encode(options) + back, |front|, headerLen);
    } else {
      var init, last := options[..|options| - 1], options[|options| - 1];
      var data := front + Encode(options) + back;
      WellFormedParts(options);
      EncodeLen(init);
      assert data == front + Encode(init) + (EncodeOption(last) + back);
      ParseEncoded(front, init, EncodeOption(last) + back, headerLen);
      assert data == (front + Encode(init)) + EncodeOption(last) + back;
      ParseOne(front + Encode(init), last, back, headerLen);
      var after := ParseOptions(data, |front| + OptionsLen(options), headerLen);
      assert options == init + [last];
      assert init + ([last] + after) == options + after;
    }
  }

  /** Section 4.2 of RFC 8200: a Pad1 is one zero byte; a PadN has type one, its data length, and zeros. */
  lemma PaddingLayout(padLen: nat)
    requires padLen < 8
    ensures var p := PadBytes(padLen);
      && |p| == padLen
      && (padLen == 1 ==> p[0] == 0)
      && (padLen >= 2 ==> p[0] == 1 && p[1] as nat == padLen - 2 && forall i :: 2 <= i < padLen ==> p[i] == 0)
  {
  }

  lemma PadIsOption(padLen: nat)
    requires 2 <= padLen < 8
    ensures PadBytes(padLen) == EncodeOption(Padding(padLen)[0])
  {
  }

  lemma ParsePadding(front: Bytes, padLen: nat)
    requires padLen < 8
    ensures ParseOptions(front + PadBytes(padLen), |front|, |front| + padLen) == Padding(padLen)
  {
    if padLen >= 2 {
      var o := Option(PADN, (padLen - 2) as byte, Zeros(padLen - 2));
      assert PadBytes(padLen) == EncodeOption(o);
      assert front + PadBytes(padLen) == front + EncodeOption(o) + [];
      ParseOne(front, o, [], |front| + padLen);
    }
  }

  /** A header of at most 2040 bytes comes back with its options in order, then at most one PadN. */
  lemma RoundTripFits(h: Header)
    requires WellFormed(h.options) && TotalLen(h.options) <= 2040
    ensures Parse(Serialize(h)) ==
            Ok(Header(h.nextHeader, (TotalLen(h.options) / 8 - 1) as byte, h.options + Padding(PadLen(2 + OptionsLen(h.options)))))
  {
    hide ParseOptions, Serialize, Encode, PadBytes, Padding, ExtLenByte, OptionsLen;
    var total, padLen := TotalLen(h.options), PadLen(2 + OptionsLen(h.options));
    var front := [h.nextHeader, ExtLenByte(total)];
    SerializeLayout(h);
    ExtLenIs(h.options);
    EncodeLen(h.options);
    assert HeaderLen(ExtLenByte(total)) == total;
    ParseEncoded(front, h.options, PadBytes(padLen), total);
    ParsePadding(front + Encode(h.options), padLen);
    assert Serialize(h)[0] == h.nextHeader && Serialize(h)[1] == ExtLenByte(total);
  }

  /** Every parsed option starts inside the header. */
  lemma {:induction false} ParsedStartsInside(data: Bytes, offset: nat, headerLen: nat, k: nat)
    requires k < |ParseOptions(data, offset, headerLen)|
    ensures offset + OptionsLen(ParseOptions(data, offset, headerLen)[..k]) < headerLen
    decreases k
  {
    var parsed := ParseOptions(data, offset, headerLen);
    if k == 0 {
      assert parsed[..0] == [];
    } else {
      var next := offset + 2 + data[offset + 1] as nat;
      var rest := ParseOptions(data, next, headerLen);
      ParsedStartsInside(data, next, headerLen, k - 1);
      assert parsed[..k] == [parsed[0]] + rest[..k - 1];
      OptionsLenCons(parsed[0], rest[..k - 1]);
    }
  }

  lemma {:induction false} OptionsLenCons(o: Option, options: seq<Option>)
    ensures OptionsLen([o] + options) == 2 + o.optDataLen as nat + OptionsLen(options)
  {
    if options == [] {
      assert [o] + options == [o] && [o][..0] == [];
    } else {
      var init := options[..|options| - 1];
      OptionsLenCons(o, init);
      assert ([o] + options)[..|options|] == [o] + init;
    }
  }

  /**
    The round trip works exactly when every length byte counts its option's data and the serialized
    header has at most 2040 bytes.
   */
  lemma RoundTripExactlyWhen(h: Header)
    ensures (exists parsed :: Parse(Serialize(h)) == Ok(parsed)
               && parsed.options == h.options + Padding(PadLen(2 + OptionsLen(h.options))))
            <==> WellFormed(h.options) && TotalLen(h.options) <= 2040
  {
    var total := TotalLen(h.options);
    ExtLenIs(h.options);
    if !WellFormed(h.options) {
      hide ParseOptions, Serialize;
      var data := Serialize(h);
      ParsedOptionsAreSmall(data, 2, HeaderLen(data[1]));
      if ParseOptions(data, 2, HeaderLen(data[1])) == h.options + Padding(PadLen(2 + OptionsLen(h.options))) {
        PartIsWellFormed(h.options, Padding(PadLen(2 + OptionsLen(h.options))));
      }
    } else if total <= 2040 {
      RoundTripFits(h);
    } else {
      LongHeaderLosesOptions(h);
    }
  }

  lemma PartIsWellFormed(options: seq<Option>, more: seq<Option>)
    requires WellFormed(options + more)
    ensures WellFormed(options)
  {
    assert forall i :: 0 <= i < |options| ==> (options + more)[i] == options[i];
  }

  lemma LongHeaderLosesOptions(h: Header)
    requires WellFormed(h.options) && TotalLen(h.options) > 2040
    ensures Parse(Serialize(h)).Ok?
    ensures |Parse(Serialize(h)).value.options| < |h.options|
         || Parse(Serialize(h)).value.options[..|h.options|] != h.options
  {
    var total := TotalLen(h.options);
    var parsed := Parse(Serialize(h)).value.options;
    ExtLenIs(h.options);
    SerializeLayout(h);
    var ext := ExtLenByte(total);
    assert Serialize(h)[1] == ext;
    var headerLen := HeaderLen(ext);
    LongHeaderLen(total, ext);
    if |parsed| >= |h.options| && parsed[..|h.options|] == h.options {
      var last := |h.options| - 1;
      assert parsed[..last] == h.options[..last];
      ParsedStartsInside(Serialize(h), 2, headerLen, last);
    }
  }

  lemma LongHeaderLen(total: nat, ext: byte)
    requires total % 8 == 0 && total > 2040 && ext as nat == (total / 8 - 1) % 256
    ensures HeaderLen(ext) + 2048 <= total
  {
    var q := total / 8;
    assert q >= 256;
    assert (ext as nat + 1) % 256 == q % 256;
  }

  lemma PaddedNeedsNone(options: seq<Option>, o: Option)
    requires 2 + o.optDataLen as nat == PadLen(2 + OptionsLen(options))
    ensures OptionsLen(options + [o]) == OptionsLen(options) + PadLen(2 + OptionsLen(options))
    ensures PadLen(2 + OptionsLen(options + [o])) == 0
  {
    assert (options + [o])[..|options|] == options;
  }

  /** Serializing what was parsed, padding option included, gives the same bytes again. */
  lemma ReserializeIsSame(h: Header)
    requires WellFormed(h.options)
    ensures Serialize(h.(options := h.options + Padding(PadLen(2 + OptionsLen(h.options))))) == Serialize(h)
  {
    var padLen := PadLen(2 + OptionsLen(h.options));
    if padLen < 2 {
      assert h.options + Padding(padLen) == h.options;
    } else {
      SamePadded(h, Padding(padLen)[0]);
    }
  }

  lemma SamePadded(h: Header, o: Option)
    requires WellFormed(h.options) && PadLen(2 + OptionsLen(h.options)) >= 2
    requires o == Padding(PadLen(2 + OptionsLen(h.options)))[0]
    ensures Serialize(h.(options := h.options + [o])) == Serialize(h)
  {
    hide Serialize, EncodeOption, ExtLenByte, PadLen, OptionsLen;
    var padLen := PadLen(2 + OptionsLen(h.options));
    var padded := h.options + [o];
    PaddedNeedsNone(h.options, o);
    PadIsOption(padLen);
    SerializeLayout(h);
    SerializeLayout(h.(options := padded));
    assert padded[..|h.options|] == h.options;
    assert Encode(padded) == Encode(h.options) + PadBytes(padLen);
    assert TotalLen(padded) == TotalLen(h.options);
  }

  // ---------- Big-endian numbers ----------

  function BigEndian(n: nat, size: nat): (r: Bytes)
    ensures |r| == size
  {
    if size == 0 then [] else BigEndian(n / 256, size - 1) + [(n % 256) as byte]
  }

  function FromBigEndian(b: Bytes): nat {
    if b == [] then 0 else 256 * FromBigEndian(b[..|b| - 1]) + b[|b| - 1] as nat
  }

  function Pow256(n: nat): nat {
    if n == 0 then 1 else 256 * Pow256(n - 1)
  }

  lemma {:induction false} BigEndianRoundTrip(n: nat, size: nat)
    requires n < Pow256(size)
    ensures FromBigEndian(BigEndian(n, size)) == n
  {
    if size > 0 {
      BigEndianRoundTrip(n / 256, size - 1);
      assert BigEndian(n, size)[..size - 1] == BigEndian(n / 256, size - 1);
    }
  }

  lemma {:induction false} FromBigEndianRange(b: Bytes)
    ensures FromBigEndian(b) < Pow256(|b|)
  {
    if b != [] {
      FromBigEndianRange(b[..|b| - 1]);
    }
  }

  /** The first byte is the most significant one. */
  lemma {:induction false} MostSignificantFirst(first: byte, rest: Bytes)
    ensures FromBigEndian([first] + rest) == first as nat * Pow256(|rest|) + FromBigEndian(rest)
  {
    var b := [first] + rest;
    if rest == [] {
      assert b[..0] == [];
    } else {
      var init, last := rest[..|rest| - 1], rest[|rest| - 1];
      assert b[..|b| - 1] == [first] + init;
      MostSignificantFirst(first, init);
      assert Pow256(|rest|) == 256 * Pow256(|init|);
      Distributes(first as nat, Pow256(|init|), FromBigEndian(init));
    }
  }

  lemma Distributes(f: nat, p: nat, r: nat)
    ensures 256 * (f * p + r) == f * (256 * p) + 256 * r
  {
  }

  lemma Pow256Values()
    ensures Pow256(2) == 0x1_0000 && Pow256(8) == 0x1_0000_0000_0000_0000
  {
    assert Pow256(2) == 256 * Pow256(1) && Pow256(1) == 256 * Pow256(0);
    assert Pow256(4) == 256 * Pow256(3) && Pow256(3) == 256 * Pow256(2);
    assert Pow256(6) == 256 * Pow256(5) && Pow256(5) == 256 * Pow256(4);
    assert Pow256(8) == 256 * Pow256(7) && Pow256(7) == 256 * Pow256(6);
  }

  // ---------- The transaction option ----------

  datatype V6CoinTransaction = V6CoinTransaction(
    version: uint16, txType: byte, timestamp: uint64, sender: Bytes, receiver: Bytes, amount: uint64,
    signature: Bytes, reserved: Bytes)

  const MIN_TX_LEN: nat := 83

  /** net.IP's To16: a four-byte address is mapped, sixteen bytes stay, anything else is no address. */
  function To16(ip: Bytes): Bytes {
    if |ip| == 4 then Zeros(10) + [0xFF, 0xFF] + ip else if |ip| == 16 then ip else []
  }

  /** What a field of `size` zero bytes holds after `data` is copied into it. */
  function Field(data: Bytes, size: nat): (r: Bytes)
    ensures |r| == size
  {
    if |data| >= size then data[..size] else data + Zeros(size - |data|)
  }

  function SerializeTx(tx: V6CoinTransaction): (r: Bytes)
    ensures |r| == MIN_TX_LEN + |tx.reserved|
  {
    BigEndian(tx.version, 2) + [tx.txType] + BigEndian(tx.timestamp, 8)
    + Field(To16(tx.sender), 16) + Field(To16(tx.receiver), 16)
    + BigEndian(tx.amount, 8) + Field(tx.signature, 32) + tx.reserved
  }

  function U64(b: Bytes): uint64
    requires |b| == 8
  {
    FromBigEndianRange(b);
    Pow256Values();
    FromBigEndian(b)
  }

  function U16(b: Bytes): uint16
    requires |b| == 2
  {
    FromBigEndianRange(b);
    Pow256Values();
    FromBigEndian(b)
  }

  function ParseTx(data: Bytes): Result<V6CoinTransaction> {
    if |data| < MIN_TX_LEN then TooShort else
      Ok(V6CoinTransaction(
        U16(data[0..2]), data[2], U64(data[3..11]), data[11..27], data[27..43], U64(data[43..51]),
        data[51..83], data[83..]))
  }

  /** The transactions whose fields have the sizes of the wire format. */
  ghost predicate WireSized(tx: V6CoinTransaction) {
    |tx.sender| == 16 && |tx.receiver| == 16 && |tx.signature| == 32
  }

  lemma FieldsOf(v: Bytes, t: byte, ts: Bytes, s: Bytes, r: Bytes, a: Bytes, g: Bytes, z: Bytes)
    requires |v| == 2 && |ts| == 8 && |s| == 16 && |r| == 16 && |a| == 8 && |g| == 32
    ensures var d := v + [t] + ts + s + r + a + g + z;
      && |d| == 83 + |z| && d[0..2] == v && d[2] == t && d[3..11] == ts && d[11..27] == s
      && d[27..43] == r && d[43..51] == a && d[51..83] == g && d[83..] == z
  {
  }

  /** What an address field holds: the address, a mapped four-byte one, or zeros. */
  ghost predicate HoldsAddress(field: Bytes, ip: Bytes) {
    && |field| == 16
    && (|ip| == 16 ==> field == ip)
    && (|ip| == 4 ==> (forall i :: 0 <= i < 10 ==> field[i] == 0) && field[10] == 255 && field[11] == 255 && field[12..] == ip)
    && (|ip| != 16 && |ip| != 4 ==> forall i :: 0 <= i < 16 ==> field[i] == 0)
  }

  lemma AddressLayout(ip: Bytes)
    ensures HoldsAddress(Field(To16(ip), 16), ip)
  {
  }

  /** Where every field is on the wire, for fields of any size. */
  lemma WireLayout(tx: V6CoinTransaction)
    ensures var d := SerializeTx(tx);
      && FromBigEndian(d[0..2]) == tx.version
      && d[2] == tx.txType
      && FromBigEndian(d[3..11]) == tx.timestamp
      && HoldsAddress(d[11..27], tx.sender)
      && HoldsAddress(d[27..43], tx.receiver)
      && FromBigEndian(d[43..51]) == tx.amount
      && (forall i :: 0 <= i < 32 ==> d[51..83][i] == if i < |tx.signature| then tx.signature[i] else 0)
      && d[83..] == tx.reserved
  {
    hide FromBigEndian, BigEndian, Pow256, HoldsAddress, To16;
    Pow256Values();
    BigEndianRoundTrip(tx.version, 2);
    BigEndianRoundTrip(tx.timestamp, 8);
    BigEndianRoundTrip(tx.amount, 8);
    AddressLayout(tx.sender);
    AddressLayout(tx.receiver);
    SignatureLayout(tx.signature);
    FieldsOf(BigEndian(tx.version, 2), tx.txType, BigEndian(tx.timestamp, 8),
             Field(To16(tx.sender), 16), Field(To16(tx.receiver), 16), BigEndian(tx.amount, 8), Field(tx.signature, 32), tx.reserved);
  }

  lemma SignatureLayout(signature: Bytes)
    ensures forall i :: 0 <= i < 32 ==> Field(signature, 32)[i] == if i < |signature| then signature[i] else 0
  {
  }

  /** A transaction option parses back to the same transaction exactly when its fields have wire size. */
  lemma TxRoundTripExactlyWhen(tx: V6CoinTransaction)
    ensures ParseTx(SerializeTx(tx)) == Ok(tx) <==> WireSized(tx)
  {
    hide FromBigEndian, BigEndian, Pow256;
    Pow256Values();
    BigEndianRoundTrip(tx.version, 2);
    BigEndianRoundTrip(tx.timestamp, 8);
    BigEndianRoundTrip(tx.amount, 8);
    FieldsOf(BigEndian(tx.version, 2), tx.txType, BigEndian(tx.timestamp, 8),
             Field(To16(tx.sender), 16), Field(To16(tx.receiver), 16), BigEndian(tx.amount, 8), Field(tx.signature, 32), tx.reserved);
    AddressField(tx.sender);
    AddressField(tx.receiver);
    assert Field(tx.signature, 32) == tx.signature <==> |tx.signature| == 32;
    assert ParseTx(SerializeTx(tx)) == Ok(tx.(
      sender := Field(To16(tx.sender), 16), receiver := Field(To16(tx.receiver), 16), signature := Field(tx.signature, 32)));
  }

  lemma AddressField(ip: Bytes)
    ensures Field(To16(ip), 16) == ip <==> |ip| == 16
  {
  }

  /** NewV6CoinExtensionHeader: the length byte keeps only the low eight bits of the length. */
  function ExtensionHeader(tx: V6CoinTransaction): Header {
    var data := SerializeTx(tx);
    Header(NEXT_HEADER_NONE, 0, [Option(V6COIN_OPTION, (|data| % 256) as byte, data)])
  }

  /** ParseV6CoinExtensionHeader: the first option of the right type. */
  function FindTx(options: seq<Option>): Result<V6CoinTransaction> {
    if options == [] then NotFound
    else if options[0].optionType == V6COIN_OPTION then ParseTx(options[0].data)
    else FindTx(options[1..])
  }

  /** A transaction option is found behind any options of other types. */
  lemma {:induction false} FoundBehindOthers(before: seq<Option>, o: Option, after: seq<Option>)
    requires o.optionType == 127 && forall i :: 0 <= i < |before| ==> before[i].optionType != 127
    ensures FindTx(before + [o] + after) == ParseTx(o.data)
  {
    var options := before + [o] + after;
    if before == [] {
      assert options[0] == o;
    } else {
      assert options[0] == before[0] && options[1..] == before[1..] + [o] + after;
      FoundBehindOthers(before[1..], o, after);
    }
  }

  /** The search fails exactly when no option is of that type. */
  lemma {:induction false} NotFoundExactlyWhen(options: seq<Option>)
    ensures FindTx(options).NotFound? <==> forall i :: 0 <= i < |options| ==> options[i].optionType != 127
  {
    if options != [] && options[0].optionType != 127 {
      NotFoundExactlyWhen(options[1..]);
      assert forall i :: 0 < i < |options| ==> options[i] == options[1..][i - 1];
    }
  }

  function Receive(data: Bytes): Result<V6CoinTransaction> {
    match Parse(data)
    case Ok(h) => FindTx(h.options)
    case _ => TooShort
  }

  lemma {:induction false} ParsedOptionsAreSmall(data: Bytes, offset: nat, headerLen: nat)
    ensures WellFormed(ParseOptions(data, offset, headerLen))
    decreases |data| - offset
  {
    if offset < headerLen && offset + 2 <= |data| && offset + 2 + data[offset + 1] as nat <= |data| {
      ParsedOptionsAreSmall(data, offset + 2 + data[offset + 1] as nat, headerLen);
    }
  }

  lemma {:induction false} FoundTxFits(options: seq<Option>)
    requires WellFormed(options)
    ensures var r := FindTx(options);
      r.Ok? ==> WireSized(r.value) && |r.value.reserved| <= 172
  {
    if options != [] && options[0].optionType != V6COIN_OPTION {
      FoundTxFits(options[1..]);
    }
  }

  /** End to end: a transaction arrives unchanged exactly when it fits one option with wire-sized fields. */
  lemma EndToEndExactlyWhen(tx: V6CoinTransaction)
    ensures Receive(Serialize(ExtensionHeader(tx))) == Ok(tx) <==> WireSized(tx) && |tx.reserved| <= 172
  {
    hide Serialize, SerializeTx, ParseOptions, PadLen, ParseTx;
    var h := ExtensionHeader(tx);
    if WireSized(tx) && |tx.reserved| <= 172 {
      OneOptionLen(h.options[0]);
      assert TotalLen(h.options) <= 2040;
      RoundTripFits(h);
      TxRoundTripExactlyWhen(tx);
      var padded := h.options + Padding(PadLen(2 + OptionsLen(h.options)));
      assert padded[0] == h.options[0];
    } else {
      var data := Serialize(h);
      if |data| >= 8 {
        ParsedOptionsAreSmall(data, 2, HeaderLen(data[1]));
        FoundTxFits(ParseOptions(data, 2, HeaderLen(data[1])));
      }
    }
  }

  lemma OneOptionLen(o: Option)
    ensures OptionsLen([o]) == 2 + o.optDataLen as nat
  {
    assert [o][..0] == [];
  }

  // ---------- The buffers in place ----------

  method CopyInto(buffer: array<byte>, offset: nat, data: Bytes)
    requires offset <= buffer.Length
    modifies buffer
    ensures buffer[..] == CopyAt(old(buffer[..]), offset, data)
  {
    var n := Min(|data|, buffer.Length - offset);
    for k := 0 to n
      invariant buffer[..] == old(buffer[..])[..offset] + data[..k] + old(buffer[..])[offset + k..]
    {
      buffer[offset + k] := data[k];
    }
  }

  /** Copies at most `size` bytes of `data` behind what is `done`, in a buffer that is zero from there on. */
  method PutField(buffer: array<byte>, ghost done: Bytes, offset: nat, data: Bytes, size: nat)
    requires offset == |done| && offset + size <= buffer.Length
    requires buffer[..] == done + Zeros(buffer.Length - offset)
    modifies buffer
    ensures buffer[..] == (done + Field(data, size)) + Zeros(buffer.Length - (offset + size))
  {
    var n := Min(|data|, size);
    FieldThenZeros(done, data, size, buffer.Length - offset);
    hide CopyAt;
    CopyInto(buffer, offset, data[..n]);
  }

  lemma FieldThenZeros(done: Bytes, data: Bytes, size: nat, room: nat)
    requires size <= room
    ensures CopyAt(done + Zeros(room), |done|, data[..Min(|data|, size)]) == (done + Field(data, size)) + Zeros(room - size)
  {
  }

  lemma FieldExact(data: Bytes)
    ensures Field(data, |data|) == data && data + Zeros(0) == data
  {
  }

  method SerializeV6CoinTransaction(tx: V6CoinTransaction) returns (data: Bytes)
    ensures data == SerializeTx(tx)
  {
    hide BigEndian, To16, Field, Zeros;
    var version, timestamp, amount := BigEndian(tx.version, 2), BigEndian(tx.timestamp, 8), BigEndian(tx.amount, 8);
    var sender, receiver := To16(tx.sender), To16(tx.receiver);
    var buffer := new byte[MIN_TX_LEN + |tx.reserved|](_ => 0);
    ghost var d0: Bytes := [];
    ghost var d1 := d0 + Field(version, 2);
    ghost var d2 := d1 + Field([tx.txType], 1);
    ghost var d3 := d2 + Field(timestamp, 8);
    ghost var d4 := d3 + Field(sender, 16);
    ghost var d5 := d4 + Field(receiver, 16);
    ghost var d6 := d5 + Field(amount, 8);
    ghost var d7 := d6 + Field(tx.signature, 32);
    assert buffer[..] == d0 + Zeros(buffer.Length);
    PutField(buffer, d0, 0, version, 2);
    PutField(buffer, d1, 2, [tx.txType], 1);
    PutField(buffer, d2, 3, timestamp, 8);
    PutField(buffer, d3, 11, sender, 16);
    PutField(buffer, d4, 27, receiver, 16);
    PutField(buffer, d5, 43, amount, 8);
    PutField(buffer, d6, 51, tx.signature, 32);
    PutField(buffer, d7, 83, tx.reserved, |tx.reserved|);
    FieldExact(version);
    FieldExact([tx.txType]);
    FieldExact(timestamp);
    FieldExact(amount);
    FieldExact(tx.reserved);
    FieldExact(d7 + tx.reserved);
    assert d0 + version == version;
    return buffer[..];
  }

  method SerializeHopByHopOptions(header: Header) returns (data: Bytes)
    ensures data == Serialize(header)
  {
    hide Fill, PadBytes;
    var dataLen := 2;
    for i := 0 to |header.options|
      invariant dataLen == 2 + OptionsLen(header.options[..i])
    {
      assert header.options[..i + 1][..i] == header.options[..i];
      dataLen := dataLen + 2 + header.options[i].optDataLen as nat;
    }
    assert header.options[..|header.options|] == header.options;
    var padLen := (8 - dataLen % 8) % 8;
    var totalLen := dataLen + padLen;
    var buffer := new byte[totalLen](_ => 0);
    buffer[0] := header.nextHeader;
    var hdrExtLen := (totalLen - 2 + 7) / 8 - 1;
    if hdrExtLen < 0 {
      hdrExtLen := 0;
    }
    buffer[1] := (hdrExtLen % 256) as byte;
    ghost var start := [header.nextHeader, ExtLenByte(totalLen)] + Zeros(totalLen - 2);
    assert buffer[..] == start;
    FillBuffer(buffer, header.options);
    WritePadding(buffer, dataLen);
    return buffer[..];
  }

  method FillBuffer(buffer: array<byte>, options: seq<Option>)
    requires 2 + OptionsLen(options) <= buffer.Length
    modifies buffer
    ensures buffer[..] == Fill(old(buffer[..]), options)
  {
    hide CopyAt;
    var offset := 2;
    OptionsLenPrefix(options, 0);
    for i := 0 to |options|
      invariant offset == 2 + OptionsLen(options[..i]) <= 2 + OptionsLen(options)
      invariant buffer[..] == Fill(old(buffer[..]), options[..i])
    {
      OptionsLenPrefix(options, i + 1);
      assert options[..i + 1][..i] == options[..i];
      ghost var before := buffer[..];
      buffer[offset] := options[i].optionType;
      buffer[offset + 1] := options[i].optDataLen;
      assert buffer[..] == before[offset := options[i].optionType][offset + 1 := options[i].optDataLen];
      CopyInto(buffer, offset + 2, options[i].data);
      offset := offset + 2 + options[i].optDataLen as nat;
    }
    assert options[..|options|] == options;
  }

  lemma {:induction false} OptionsLenPrefix(options: seq<Option>, i: nat)
    requires i <= |options|
    ensures OptionsLen(options[..i]) <= OptionsLen(options)
  {
    if i < |options| {
      OptionsLenPrefix(options[..|options| - 1], i);
      assert options[..|options| - 1][..i] == options[..i];
    } else {
      assert options[..i] == options;
    }
  }

  /** Overwrites everything from `offset` on with the padding. */
  method WritePadding(buffer: array<byte>, offset: nat)
    requires offset <= buffer.Length < offset + 8
    modifies buffer
    ensures buffer[..] == old(buffer[..])[..offset] + PadBytes(buffer.Length - offset)
  {
    var padLen := buffer.Length - offset;
    if padLen > 0 {
      if padLen == 1 {
        buffer[offset] := 0;
      } else {
        buffer[offset] := PADN;
        buffer[offset + 1] := (padLen - 2) as byte;
        for i := 2 to padLen
          invariant buffer[..offset] == old(buffer[..])[..offset]
          invariant buffer[offset] == PADN && buffer[offset + 1] == (padLen - 2) as byte
          invariant forall k :: offset + 2 <= k < offset + i ==> buffer[k] == 0
        {
          buffer[offset + i] := 0;
        }
        assert buffer[offset..] == PadBytes(padLen);
      }
    }
  }

  method ParseHopByHopOptions(data: Bytes) returns (result: Result<Header>)
    ensures result == Parse(data)
  {
    hide ParseOptions;
    if |data| < 8 {
      return TooShort;
    }
    var options: seq<Option> := [];
    var offset := 2;
    var headerLen := HeaderLen(data[1]);
    while offset < headerLen && offset + 2 <= |data|
      invariant 2 <= offset
      invariant options + ParseOptions(data, offset, headerLen) == ParseOptions(data, 2, headerLen)
      decreases |data| - offset
    {
      ParseStep(data, offset, headerLen);
      var optLen := data[offset + 1] as nat;
      if offset + 2 + optLen > |data| {
        break;
      }
      ghost var rest := ParseOptions(data, offset + 2 + optLen, headerLen);
      var option := Option(data[offset], data[offset + 1], data[offset + 2..offset + 2 + optLen]);
      assert options + ([option] + rest) == (options + [option]) + rest;
      options := options + [option];
      offset := offset + 2 + optLen;
    }
    ParseStep(data, offset, headerLen);
    assert options + [] == options;
    return Ok(Header(data[0], data[1], options));
  }

  method ParseV6CoinExtensionHeader(header: Header) returns (result: Result<V6CoinTransaction>)
    ensures result == FindTx(header.options)
  {
    for i := 0 to |header.options|
      invariant FindTx(header.options[i..]) == FindTx(header.options)
    {
      if header.options[i].optionType == V6COIN_OPTION {
        return ParseTx(header.options[i].data);
      }
      assert header.options[i..][1..] == header.options[i + 1..];
    }
    return NotFound;
  }
}
