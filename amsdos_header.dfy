/**
 * The 128-byte AMSDOS file header (src/amsdos.h:66-84) and its checksum
 * (src/amsdos.c:119-158). Byte offsets are those of the C struct under
 * normal alignment: the two 16-bit lengths and the checksum are 2-aligned,
 * which puts padding at bytes 61, 65 and 127 and the checksum at 66-67.
 */
module AmsdosHeader {
  import opened Common
  import opened DskLayout
  import opened AmsdosName

  const HEADER_SIZE: nat := 128
  const HD_USER: nat := 0
  const HD_NAME: nat := 1             // 8 bytes
  const HD_EXTENSION: nat := 9        // 3 bytes
  const HD_UNUSED0: nat := 12         // 4 bytes
  const HD_BLOCK_NUMBER: nat := 16
  const HD_LAST_BLOCK: nat := 17
  const HD_TYPE: nat := 18
  const HD_DATA_LENGTH: nat := 19
  const HD_LOAD_ADDRESS: nat := 20    // uint8_t
  const HD_FIRST_BLOCK: nat := 21
  const HD_LOGICAL_LENGTH: nat := 22  // uint16_t
  const HD_ENTRY_ADDRESS: nat := 24   // uint8_t
  const HD_UNUSED1: nat := 25         // 36 bytes, then 1 byte of padding
  const HD_FILE_LENGTH: nat := 62     // uint16_t
  const HD_UNUSED2: nat := 64         // then 1 byte of padding
  const HD_CHECKSUM: nat := 66        // uint16_t
  const HD_UNUSED3: nat := 68         // 59 bytes, then 1 byte of padding

  const AMSDOS_BINARY: byte := 2

  /** The loop of get_amsdos_checksum sums the first 67 bytes. */
  const CHECKSUM_SPAN_AS_WRITTEN: nat := 67
  /** The bytes that precede the checksum field. */
  const CHECKSUM_SPAN: nat := HD_CHECKSUM

  /** The fields follow one another with the padding alignment requires, in 128 bytes. */
  lemma HeaderLayout()
    ensures HD_UNUSED0 + 4 == HD_BLOCK_NUMBER && HD_ENTRY_ADDRESS + 1 == HD_UNUSED1
    ensures HD_UNUSED1 + 36 + 1 == HD_FILE_LENGTH && HD_FILE_LENGTH % 2 == 0
    ensures HD_UNUSED2 + 1 + 1 == HD_CHECKSUM && HD_CHECKSUM % 2 == 0
    ensures HD_UNUSED3 + 59 + 1 == HEADER_SIZE
    ensures HD_CHECKSUM < CHECKSUM_SPAN_AS_WRITTEN
  {
  }

  type HeaderBytes = s: seq<byte> | |s| == HEADER_SIZE witness seq(HEADER_SIZE, _ => 0)

  /** The sum of a sequence of bytes. */
  function Sum(s: seq<byte>): nat
  {
    if |s| == 0 then 0 else Sum(s[..|s| - 1]) + s[|s| - 1]
  }

  lemma {:induction false} SumConcat(a: seq<byte>, b: seq<byte>)
    ensures Sum(a + b) == Sum(a) + Sum(b)
    decreases |b|
  {
    if |b| == 0 {
      assert a + b == a;
    } else {
      assert (a + b)[..|a + b| - 1] == a + b[..|b| - 1];
      SumConcat(a, b[..|b| - 1]);
    }
  }

  lemma SumSnoc(s: seq<byte>, x: byte)
    ensures Sum(s + [x]) == Sum(s) + x
  {
    assert (s + [x])[..|s|] == s;
  }

  lemma {:induction false} SumOfConstant(n: nat, c: byte)
    ensures Sum(seq(n, _ => c)) == n * c
  {
    if n > 0 {
      assert seq(n, _ => c)[..n - 1] == seq(n - 1, _ => c);
      SumOfConstant(n - 1, c);
    }
  }

  lemma SumOfZeros(n: nat)
    ensures Sum(Zeros(n)) == 0
  {
    SumOfConstant(n, 0);
  }

  /** A 16-bit value as the two bytes of a little-endian `uint16_t`. */
  function LE16Bytes(v: nat): (r: seq<byte>)
    requires v < 65536
    ensures |r| == 2
  {
    [v % 256, v / 256]
  }

  /** Reading the two bytes back as a little-endian `uint16_t` gives the value. */
  lemma LE16BytesRoundTrip(v: nat)
    requires v < 65536
    ensures var r := LE16Bytes(v); LE16(r[0], r[1]) == v
  {
  }

  /**
   * get_amsdos_checksum: the 16-bit wrapping sum of the first `span` header
   * bytes (67 as written).
   */
  method GetChecksum(h: HeaderBytes, span: nat) returns (checksum: nat)
    requires span <= HEADER_SIZE
    ensures checksum == Sum(h[..span]) % 65536
  {
    checksum := 0;
    var i := 0;
    while i < span
      invariant 0 <= i <= span
      invariant checksum == Sum(h[..i]) % 65536
    {
      assert h[..i + 1][..i] == h[..i];
      checksum := (checksum + h[i]) % 65536;
      i := i + 1;
    }
  }

  /** The checksum is stored little-endian at bytes 66-67. */
  function StoredChecksum(h: HeaderBytes): nat
  {
    LE16(h[HD_CHECKSUM], h[HD_CHECKSUM + 1])
  }

  /** The checksum as get_amsdos_checksum computes it: bytes 0..66, which takes in the stored checksum's low byte. */
  function ChecksumAsWritten(h: HeaderBytes): (r: nat)
    ensures r < 65536
  {
    Sum(h[..CHECKSUM_SPAN_AS_WRITTEN]) % 65536
  }

  /** The checksum over the 66 bytes that precede the checksum field. */
  function Checksum(h: HeaderBytes): (r: nat)
    ensures r < 65536
  {
    Sum(h[..CHECKSUM_SPAN]) % 65536
  }

  /** is_amsdos_header as written. */
  predicate IsHeaderAsWritten(h: HeaderBytes)
  {
    StoredChecksum(h) == ChecksumAsWritten(h)
  }

  /** is_amsdos_header with the checksum over the bytes before the field. */
  predicate IsHeader(h: HeaderBytes)
  {
    StoredChecksum(h) == Checksum(h)
  }

  /** Bytes 0..11: user, name field and extension field. */
  function NamePart(name: seq<byte>, user: byte): (r: seq<byte>)
    ensures |r| == HD_UNUSED0
  {
    [user] + NameField(name) + ExtField(name)
  }

  /** Bytes 12..21: unused, block numbers, type 2, data length 0, load address, first block. */
  function TypePart(load: nat): (r: seq<byte>)
    ensures |r| == HD_LOGICAL_LENGTH - HD_UNUSED0
  {
    Zeros(HD_TYPE - HD_UNUSED0) + [AMSDOS_BINARY] + [0] + [load % 256] + [0]
  }

  /** Bytes 22..61: logical length, entry address, unused and padding. */
  function LengthPart(size: nat, entry: nat): (r: seq<byte>)
    requires size < 65536
    ensures |r| == HD_FILE_LENGTH - HD_LOGICAL_LENGTH
  {
    LE16Bytes(size) + [entry % 256] + Zeros(HD_FILE_LENGTH - HD_UNUSED1)
  }

  /** Bytes 62..65: file length, unused and padding. */
  function FileLengthPart(size: nat): (r: seq<byte>)
    requires size < 65536
    ensures |r| == HD_CHECKSUM - HD_FILE_LENGTH
  {
    LE16Bytes(size) + Zeros(HD_CHECKSUM - HD_UNUSED2)
  }

  /**
   * The header fields init_amsdos_header sets, before the checksum: the
   * record zeroed, then user, name and extension fields, type 2, the low byte
   * of the load and entry addresses (their fields are one byte wide) and the
   * size as both the logical and the file length.
   */
  function HeaderFields(name: seq<byte>, size: nat, user: byte, load: nat, entry: nat): (f: seq<byte>)
    requires size < 65536
    ensures |f| == CHECKSUM_SPAN
  {
    NamePart(name, user) + TypePart(load) + LengthPart(size, entry) + FileLengthPart(size)
  }

  /** A header with the checksum c stored after the given 66 bytes of fields. */
  function WithChecksum(f: seq<byte>, c: nat): (h: HeaderBytes)
    requires |f| == CHECKSUM_SPAN && c < 65536
  {
    f + LE16Bytes(c) + Zeros(HEADER_SIZE - CHECKSUM_SPAN - 2)
  }

  /** init_amsdos_header as written: the checksum is computed while bytes 66-67 are still 0. */
  function InitHeaderAsWritten(name: seq<byte>, size: nat, user: byte, load: nat, entry: nat): HeaderBytes
    requires size < 65536
  {
    var f := HeaderFields(name, size, user, load, entry);
    WithChecksum(f, ChecksumAsWritten(WithChecksum(f, 0)))
  }

  /** init_amsdos_header with the checksum over the bytes before the field. */
  function InitHeader(name: seq<byte>, size: nat, user: byte, load: nat, entry: nat): HeaderBytes
    requires size < 65536
  {
    var f := HeaderFields(name, size, user, load, entry);
    WithChecksum(f, Checksum(WithChecksum(f, 0)))
  }

  /**
   * Where init_amsdos_header puts each value, whatever checksum is then
   * stored after the fields.
   */
  lemma InitHeaderFields(name: seq<byte>, size: nat, user: byte, load: nat, entry: nat, c: nat)
    requires size < 65536 && c < 65536
    ensures var h := WithChecksum(HeaderFields(name, size, user, load, entry), c);
      h[HD_USER] == user &&
      h[HD_NAME..HD_EXTENSION] == NameField(name) &&
      h[HD_EXTENSION..HD_UNUSED0] == ExtField(name) &&
      h[HD_TYPE] == AMSDOS_BINARY && h[HD_DATA_LENGTH] == 0 &&
      h[HD_LOAD_ADDRESS] == load % 256 && h[HD_ENTRY_ADDRESS] == entry % 256 &&
      LE16(h[HD_LOGICAL_LENGTH], h[HD_LOGICAL_LENGTH + 1]) == size &&
      LE16(h[HD_FILE_LENGTH], h[HD_FILE_LENGTH + 1]) == size
  {
    var f := HeaderFields(name, size, user, load, entry);
    WithChecksumParts(f, c);
    FieldsAt(NameField(name), ExtField(name), NamePart(name, user), TypePart(load), LengthPart(size, entry),
             FileLengthPart(size), f, user, size, load, entry);
  }

  /** The positions of the fields within the 66 bytes before the checksum. */
  lemma FieldsAt(nf: seq<byte>, ef: seq<byte>, p1: seq<byte>, p2: seq<byte>, p3: seq<byte>, p4: seq<byte>,
                 f: seq<byte>, user: byte, size: nat, load: nat, entry: nat)
    requires size < 65536 && |nf| == AMSDOS_NAME_LEN && |ef| == AMSDOS_EXT_LEN
    requires p1 == [user] + nf + ef
    requires p2 == Zeros(HD_TYPE - HD_UNUSED0) + [AMSDOS_BINARY] + [0] + [load % 256] + [0]
    requires p3 == LE16Bytes(size) + [entry % 256] + Zeros(HD_FILE_LENGTH - HD_UNUSED1)
    requires p4 == LE16Bytes(size) + Zeros(HD_CHECKSUM - HD_UNUSED2)
    requires f == p1 + p2 + p3 + p4
    ensures f[HD_USER] == user && f[HD_NAME..HD_EXTENSION] == nf && f[HD_EXTENSION..HD_UNUSED0] == ef
    ensures f[HD_TYPE] == AMSDOS_BINARY && f[HD_DATA_LENGTH] == 0
    ensures f[HD_LOAD_ADDRESS] == load % 256 && f[HD_ENTRY_ADDRESS] == entry % 256
    ensures LE16(f[HD_LOGICAL_LENGTH], f[HD_LOGICAL_LENGTH + 1]) == size
    ensures LE16(f[HD_FILE_LENGTH], f[HD_FILE_LENGTH + 1]) == size
  {
    assert f[HD_NAME..HD_EXTENSION] == p1[HD_NAME..HD_EXTENSION];
    assert f[HD_EXTENSION..HD_UNUSED0] == p1[HD_EXTENSION..HD_UNUSED0];
    assert f[HD_TYPE] == p2[HD_TYPE - HD_UNUSED0];
    assert f[HD_DATA_LENGTH] == p2[HD_DATA_LENGTH - HD_UNUSED0];
    assert f[HD_LOAD_ADDRESS] == p2[HD_LOAD_ADDRESS - HD_UNUSED0];
    assert f[HD_LOGICAL_LENGTH] == p3[0] && f[HD_LOGICAL_LENGTH + 1] == p3[1];
    assert f[HD_ENTRY_ADDRESS] == p3[HD_ENTRY_ADDRESS - HD_LOGICAL_LENGTH];
    assert f[HD_FILE_LENGTH] == p4[0] && f[HD_FILE_LENGTH + 1] == p4[1];
  }

  /** The 66 bytes before the checksum field sum to the fields init_amsdos_header sets. */
  lemma HeaderFieldsSum(name: seq<byte>, size: nat, user: byte, load: nat, entry: nat)
    requires size < 65536
    ensures Sum(HeaderFields(name, size, user, load, entry)) ==
      user + Sum(NameField(name)) + Sum(ExtField(name)) + AMSDOS_BINARY + load % 256 +
      2 * (size % 256 + size / 256) + entry % 256
  {
    var p1, p2, p3, p4 := NamePart(name, user), TypePart(load), LengthPart(size, entry), FileLengthPart(size);
    SumConcat(p1 + p2 + p3, p4);
    SumConcat(p1 + p2, p3);
    SumConcat(p1, p2);
    NamePartSum(name, user);
    TypePartSum(load);
    LengthPartSum(size, entry);
    FileLengthPartSum(size);
  }

  lemma NamePartSum(name: seq<byte>, user: byte)
    ensures Sum(NamePart(name, user)) == user + Sum(NameField(name)) + Sum(ExtField(name))
  {
    SumConcat([user] + NameField(name), ExtField(name));
    SumConcat([user], NameField(name));
    SumSnoc([], user);
  }

  lemma TypePartSum(load: nat)
    ensures Sum(TypePart(load)) == AMSDOS_BINARY + load % 256
  {
    var z := Zeros(HD_TYPE - HD_UNUSED0);
    SumSnoc(z + [AMSDOS_BINARY] + [0] + [load % 256], 0);
    SumSnoc(z + [AMSDOS_BINARY] + [0], load % 256);
    SumSnoc(z + [AMSDOS_BINARY], 0);
    SumSnoc(z, AMSDOS_BINARY);
    SumOfZeros(HD_TYPE - HD_UNUSED0);
  }

  lemma LE16Sum(size: nat)
    requires size < 65536
    ensures Sum(LE16Bytes(size)) == size % 256 + size / 256
  {
    SumSnoc([size % 256], size / 256);
    SumSnoc([], size % 256);
    assert LE16Bytes(size) == [size % 256] + [size / 256];
  }

  lemma LengthPartSum(size: nat, entry: nat)
    requires size < 65536
    ensures Sum(LengthPart(size, entry)) == size % 256 + size / 256 + entry % 256
  {
    var le := LE16Bytes(size);
    SumConcat(le + [entry % 256], Zeros(HD_FILE_LENGTH - HD_UNUSED1));
    SumSnoc(le, entry % 256);
    SumOfZeros(HD_FILE_LENGTH - HD_UNUSED1);
    LE16Sum(size);
  }

  lemma FileLengthPartSum(size: nat)
    requires size < 65536
    ensures Sum(FileLengthPart(size)) == size % 256 + size / 256
  {
    SumConcat(LE16Bytes(size), Zeros(HD_CHECKSUM - HD_UNUSED2));
    SumOfZeros(HD_CHECKSUM - HD_UNUSED2);
    LE16Sum(size);
  }

  /** The checksum bytes sit after the 66 bytes of fields and are not part of them. */
  lemma WithChecksumParts(f: seq<byte>, c: nat)
    requires |f| == CHECKSUM_SPAN && c < 65536
    ensures WithChecksum(f, c)[..CHECKSUM_SPAN] == f
    ensures WithChecksum(f, c)[..CHECKSUM_SPAN_AS_WRITTEN] == f + [c % 256]
    ensures StoredChecksum(WithChecksum(f, c)) == c
  {
  }

  /** The sum of 66 bytes fits in 16 bits, so the wrap never happens here. */
  lemma {:induction false} SumBound(s: seq<byte>)
    ensures Sum(s) <= 255 * |s|
  {
    if |s| > 0 {
      SumBound(s[..|s| - 1]);
    }
  }

  /**
   * The two checksums of a header whose fields are f and whose stored
   * checksum is c: the 66 bytes of fields, and those plus the low byte of c.
   */
  lemma ChecksumsOf(f: seq<byte>, c: nat)
    requires |f| == CHECKSUM_SPAN && c < 65536
    ensures Sum(f) <= 255 * CHECKSUM_SPAN
    ensures Checksum(WithChecksum(f, c)) == Sum(f)
    ensures ChecksumAsWritten(WithChecksum(f, c)) == Sum(f) + c % 256
  {
    WithChecksumParts(f, c);
    SumConcat(f, [c % 256]);
    SumBound(f);
    SumSnoc([], c % 256);
  }

  /** Every header init_amsdos_header builds is recognised by is_amsdos_header (checksum over bytes 0..65). */
  lemma InitHeaderIsHeader(name: seq<byte>, size: nat, user: byte, load: nat, entry: nat)
    requires size < 65536
    ensures IsHeader(InitHeader(name, size, user, load, entry))
  {
    var f := HeaderFields(name, size, user, load, entry);
    ChecksumsOf(f, 0);
    ChecksumsOf(f, Sum(f));
    WithChecksumParts(f, Sum(f));
  }

  /**
   * As written, a freshly built header passes is_amsdos_header exactly when
   * the low byte of its checksum is 0: the check adds the stored low byte a
   * second time.
   */
  lemma InitHeaderAsWrittenRecognisedIff(name: seq<byte>, size: nat, user: byte, load: nat, entry: nat)
    requires size < 65536
    ensures IsHeaderAsWritten(InitHeaderAsWritten(name, size, user, load, entry)) <==>
      Sum(HeaderFields(name, size, user, load, entry)) % 256 == 0
  {
    var f := HeaderFields(name, size, user, load, entry);
    AsWrittenCheckOfInit(name, size, user, load, entry);
    SelfCheckAsWritten(f);
  }

  lemma AsWrittenCheckOfInit(name: seq<byte>, size: nat, user: byte, load: nat, entry: nat)
    requires size < 65536
    ensures var f := HeaderFields(name, size, user, load, entry);
      InitHeaderAsWritten(name, size, user, load, entry) == WithChecksum(f, ChecksumAsWritten(WithChecksum(f, 0)))
  {
  }

  /** Storing the as-written checksum of fields f gives a header the as-written check accepts iff Sum(f) % 256 == 0. */
  lemma SelfCheckAsWritten(f: seq<byte>)
    requires |f| == CHECKSUM_SPAN
    ensures IsHeaderAsWritten(WithChecksum(f, ChecksumAsWritten(WithChecksum(f, 0)))) <==> Sum(f) % 256 == 0
  {
    var c := ChecksumAsWritten(WithChecksum(f, 0));
    BlankChecksumAsWritten(f);
    AsWrittenCheckOf(f, c);
  }

  /** The as-written check accepts fields f with stored checksum c iff c is their sum plus its own low byte. */
  lemma AsWrittenCheckOf(f: seq<byte>, c: nat)
    requires |f| == CHECKSUM_SPAN && c < 65536
    ensures IsHeaderAsWritten(WithChecksum(f, c)) <==> c == Sum(f) + c % 256
  {
    ChecksumsOf(f, c);
    WithChecksumParts(f, c);
  }

  /** While the checksum field is still 0, the as-written sum is the sum of the fields. */
  lemma BlankChecksumAsWritten(f: seq<byte>)
    requires |f| == CHECKSUM_SPAN
    ensures ChecksumAsWritten(WithChecksum(f, 0)) == Sum(f)
  {
    ChecksumsOf(f, 0);
  }

  /** A plain name of at most 8 upper-case characters gives itself, space-padded, and a blank extension. */
  lemma PlainNameKept(n: seq<byte>)
    requires |n| <= AMSDOS_NAME_LEN && NoLowerCase(n)
    requires forall i :: 0 <= i < |n| ==> n[i] != DOT && n[i] != SLASH
    ensures NameField(n) == n + Spaces(AMSDOS_NAME_LEN - |n|)
    ensures ExtField(n) == Spaces(AMSDOS_EXT_LEN)
  {
    SegmentStartSkips(n, 0, |n|);
    assert Basename(n) == n;
    FindByteIsFirst(n, DOT, 0);
    NoDotNoExtension(n);
  }

  /**
   * The header init_amsdos_header builds for a file "A" of user 0, size 0
   * and addresses 0 has checksum 387, whose low byte is 131, so the check as
   * written rejects it.
   */
  lemma InitHeaderAsWrittenRejected(n: seq<byte>)
    requires n == [0x41]
    ensures !IsHeaderAsWritten(InitHeaderAsWritten(n, 0, 0, 0, 0))
  {
    NameOfASum(n);
    RejectedUnlessRoundSum(n, 0, 0, 0, 0);
  }

  /** The as-written check rejects the header built from fields whose byte sum is not a multiple of 256. */
  lemma RejectedUnlessRoundSum(name: seq<byte>, size: nat, user: byte, load: nat, entry: nat)
    requires size < 65536
    requires (user + Sum(NameField(name)) + Sum(ExtField(name)) + AMSDOS_BINARY + load % 256 +
              2 * (size % 256 + size / 256) + entry % 256) % 256 != 0
    ensures !IsHeaderAsWritten(InitHeaderAsWritten(name, size, user, load, entry))
  {
    HeaderFieldsSum(name, size, user, load, entry);
    InitHeaderAsWrittenRecognisedIff(name, size, user, load, entry);
  }

  /** The name and extension fields of "A" are "A" and ten spaces. */
  lemma NameOfASum(n: seq<byte>)
    requires n == [0x41]
    ensures Sum(NameField(n)) + Sum(ExtField(n)) == 0x41 + 10 * SPACE
  {
    PlainNameKept(n);
    SumConcat(n, Spaces(7));
    assert Spaces(7) == seq(7, _ => SPACE);
    SumOfConstant(7, SPACE);
    assert Spaces(3) == seq(3, _ => SPACE);
    SumOfConstant(3, SPACE);
    assert Sum(n) == 0x41 by {
      assert n == [] + [0x41];
    }
  }
}
