/** The portable binary output archive of src/util/portable_binary_oarchive.cpp:
    the sign-and-length integer encoding of `save_impl`, and the flag check,
    optional header and trailing flags byte written by `init`.

    The archive's stream is a byte sequence that writes append to; the byte
    order of the machine (BOOST_BIG_ENDIAN) is a field of the archive rather
    than a build variant. */
module PortableBinaryOArchive {
  import opened Wrappers
  import opened Bytes

  /** sizeof(boost::intmax_t): a 64-bit two's complement integer. */
  const IntMaxSize: nat := 8
  const IntMaxMin: int := -0x8000_0000_0000_0000
  const IntMaxMax: int := 0x7FFF_FFFF_FFFF_FFFF
  /** Number of distinct 64-bit patterns. */
  const WordModulus: int := 0x1_0000_0000_0000_0000

  /** An `unsigned int` of flag bits. */
  type Flags = f: nat | f < 0x1_0000_0000

  /** Archive flag bits: boost::archive::no_header, and the two byte-order
      requests of the portable archive. */
  const NoHeader: Flags := 0x1
  const EndianBig: Flags := 0x4000
  const EndianLittle: Flags := 0x8000
  /** endian_big | endian_little: the two bits are distinct. */
  const BothOrders: Flags := 0xC000

  /** `(f & bit) != 0` for a single-bit `bit`. */
  predicate HasBit(f: Flags, bit: Flags)
    requires 0 < bit
  {
    (f / bit) % 2 == 1
  }

  /** Flags holding nothing but byte-order requests. */
  predicate OnlyOrderBits(f: Flags) {
    f % EndianBig == 0 && f < 0x1_0000
  }

  predicate IsIntMax(x: int) {
    IntMaxMin <= x <= IntMaxMax
  }

  /** sizeof(intmax_t) bytes hold every magnitude an intmax_t has. */
  lemma IntMaxFitsInWord()
    ensures Pow256(IntMaxSize) == WordModulus
    ensures -IntMaxMin < Pow256(IntMaxSize)
  {
    assert Pow256(0) == 1;
    assert Pow256(1) == 0x100;
    assert Pow256(2) == 0x1_0000;
    assert Pow256(3) == 0x100_0000;
    assert Pow256(4) == 0x1_0000_0000;
    assert Pow256(5) == 0x100_0000_0000;
    assert Pow256(6) == 0x1_0000_0000_0000;
    assert Pow256(7) == 0x100_0000_0000_0000;
  }

  function Abs(x: int): nat {
    if x < 0 then -x else x
  }

  datatype ArchiveError = PortableBinaryOArchiveException

  /** An output archive: its byte-order flags (`m_flags`), whether the host
      stores integers most significant byte first, and the bytes written. */
  datatype Archive = Archive(flags: Flags, bigEndianHost: bool, stream: seq<byte>)

  /** The order magnitude bytes are written in (lines 74-81): the host's
      own order, flipped by endian_big on a little-endian host and by
      endian_little on a big-endian host. So a request for one order alone
      is honoured on either host, and with no request the host's order is
      kept. */
  predicate WritesBigEndian(a: Archive)
    ensures HasBit(a.flags, EndianBig) && !HasBit(a.flags, EndianLittle) ==> WritesBigEndian(a)
    ensures HasBit(a.flags, EndianLittle) && !HasBit(a.flags, EndianBig) ==> !WritesBigEndian(a)
    ensures !HasBit(a.flags, EndianBig) && !HasBit(a.flags, EndianLittle) ==> (WritesBigEndian(a) <==> a.bigEndianHost)
  {
    if a.bigEndianHost then !HasBit(a.flags, EndianLittle) else HasBit(a.flags, EndianBig)
  }

  // ---------------------------------------------------------------------
  // Machine integers and characters
  // ---------------------------------------------------------------------

  /** The value a signed `char` holding byte `b` has. */
  function SignedValue(b: byte): (c: int)
    ensures -128 <= c < 128
    ensures c < 0 <==> b >= 0x80
  {
    if b < 0x80 then b as int else b as int - 256
  }

  /** The byte stored by `static_cast<char>(c)`: the two's complement
      pattern of `c`, which reads back as `c`. */
  function CharByte(c: int): (b: byte)
    requires -128 <= c < 128
    ensures SignedValue(b) == c
  {
    if c < 0 then (c + 256) as byte else c as byte
  }

  /** The intmax_t a mathematical integer wraps to on a two's complement
      machine: congruent to it modulo 2^64, and equal to it when it fits. */
  function ToIntMax(x: int): (r: int)
    ensures IsIntMax(r)
    ensures (r - x) % WordModulus == 0
    ensures IsIntMax(x) ==> r == x
  {
    (x - IntMaxMin) % WordModulus + IntMaxMin
  }

  /** `ll = -l` on an intmax_t (line 56), with the wrap-around the hardware
      performs where the negation overflows. */
  function NegateIntMax(l: int): (r: int)
    requires IsIntMax(l)
    ensures IsIntMax(r)
    ensures l != IntMaxMin ==> r == -l
    ensures l == IntMaxMin ==> r == IntMaxMin
  {
    ToIntMax(-l)
  }

  /** The same negation carried out on uintmax_t, where it cannot overflow:
      `0 - (uintmax_t)l`. */
  function NegateUIntMax(l: int): (r: nat)
    requires IsIntMax(l) && l < 0
    ensures r == -l
  {
    (0 - l % WordModulus) % WordModulus
  }

  // ---------------------------------------------------------------------
  // The size loop, as written
  // ---------------------------------------------------------------------

  /** The do-while loop of lines 60-63 run for at most `fuel` rounds: shift
      `ll` right by CHAR_BIT (an arithmetic shift, which rounds towards minus
      infinity) and count, until `ll` is 0. None when the loop has not
      ended within `fuel` rounds. */
  function SizeLoop(ll: int, size: nat, fuel: nat): (r: Option<nat>)
    ensures r.Some? ==> size < r.value <= size + fuel
    decreases fuel
  {
    if fuel == 0 then None
    else
      var shifted := ll / 256;
      if shifted == 0 then Some(size + 1) else SizeLoop(shifted, size + 1, fuel - 1)
  }

  /** On a positive value the loop ends after exactly ByteCount rounds. */
  lemma {:induction false} SizeLoopCountsBytes(ll: int, size: nat, fuel: nat)
    requires 0 < ll && ByteCount(ll) <= fuel
    ensures SizeLoop(ll, size, fuel) == Some(size + ByteCount(ll))
    decreases fuel
  {
    if ll >= 256 {
      SizeLoopCountsBytes(ll / 256, size + 1, fuel - 1);
    }
  }

  /** On a negative value the shift never reaches 0, so the loop never ends. */
  lemma {:induction false} SizeLoopNeverEndsOnNegative(ll: int, size: nat, fuel: nat)
    requires ll < 0
    ensures SizeLoop(ll, size, fuel) == None
    decreases fuel
  {
    if fuel > 0 {
      SizeLoopNeverEndsOnNegative(ll / 256, size + 1, fuel - 1);
    }
  }

  /** For l = INTMAX_MIN, `-l` wraps back to INTMAX_MIN, and the size loop
      does not end however long it runs. */
  lemma SizeLoopNeverEndsOnMin(fuel: nat)
    ensures NegateIntMax(IntMaxMin) == IntMaxMin
    ensures SizeLoop(NegateIntMax(IntMaxMin), 0, fuel) == None
  {
    SizeLoopNeverEndsOnNegative(NegateIntMax(IntMaxMin), 0, fuel);
  }

  // ---------------------------------------------------------------------
  // Magnitude bytes
  // ---------------------------------------------------------------------

  /** The bytes of a non-negative intmax_t as they lie in the host's memory. */
  function ObjectRepresentation(ll: nat, bigEndianHost: bool): (rep: seq<byte>)
    requires ll < Pow256(IntMaxSize)
    ensures |rep| == IntMaxSize
  {
    if bigEndianHost then Reverse(LowBytes(ll, IntMaxSize)) else LowBytes(ll, IntMaxSize)
  }

  /** The `size` bytes handed to save_binary (lines 73-82): a window on the
      representation of `ll`, its last `size` bytes on a big-endian host and
      its first `size` on a little-endian one, reversed when the flags ask
      for the other order. They are the low `size` bytes of `ll` in the
      archive's effective order. */
  function MagnitudeBytes(a: Archive, ll: nat, size: nat): (bs: seq<byte>)
    requires ll < Pow256(IntMaxSize) && size <= IntMaxSize
    ensures bs == if WritesBigEndian(a) then Reverse(LowBytes(ll, size)) else LowBytes(ll, size)
  {
    var rep := ObjectRepresentation(ll, a.bigEndianHost);
    if a.bigEndianHost then
      LowBytesBigEndianSuffix(ll, size, IntMaxSize);
      ReverseReverse(LowBytes(ll, size));
      var window := rep[IntMaxSize - size..];
      if HasBit(a.flags, EndianLittle) then Reverse(window) else window
    else
      LowBytesPrefix(ll, size, IntMaxSize);
      var window := rep[..size];
      if HasBit(a.flags, EndianBig) then Reverse(window) else window
  }

  // ---------------------------------------------------------------------
  // The encoding
  // ---------------------------------------------------------------------

  /** `w` is the portable encoding of `l` with magnitude bytes in the given
      order: a lone 0 byte for zero; otherwise a signed count N, negative
      exactly when `l` is, with 1 <= |N| <= sizeof(intmax_t) and |N| the
      fewest bytes that hold |l|, followed by the low |N| bytes of |l|. */
  ghost predicate IsPortableEncoding(w: seq<byte>, l: int, bigEndian: bool) {
    if l == 0 then w == [0]
    else
      && 1 <= |w|
      && var n := SignedValue(w[0]);
         var size := Abs(n);
         && 1 <= size <= IntMaxSize
         && (n < 0 <==> l < 0)
         && |w| == 1 + size
         && Pow256(size - 1) <= Abs(l) < Pow256(size)
         && w[1..] == if bigEndian then Reverse(LowBytes(Abs(l), size)) else LowBytes(Abs(l), size)
  }

  /** A signed count of `size` bytes, the fewest that hold `ll`, followed by
      the low `size` bytes of `ll` in the given order, is a portable encoding. */
  lemma HeaderThenLowBytesEncode(negative: bool, ll: nat, size: nat, bigEndian: bool)
    requires 1 <= size <= IntMaxSize && Pow256(size - 1) <= ll < Pow256(size)
    ensures var low := LowBytes(ll, size);
            IsPortableEncoding([CharByte(if negative then -(size as int) else size)]
                                 + (if bigEndian then Reverse(low) else low),
                               if negative then -(ll as int) else ll, bigEndian)
  {
    var low := LowBytes(ll, size);
    var body := if bigEndian then Reverse(low) else low;
    var header := CharByte(if negative then -(size as int) else size);
    var w := [header] + body;
    assert w[1..] == body;
    assert Abs(SignedValue(w[0])) == size;
    if negative {
      assert Abs(-(ll as int)) == ll;
    }
  }

  /** Lines 65-82 for a value of magnitude `ll` whose count loop gave
      `size`, the fewest bytes that hold it: the signed byte count, then the
      magnitude bytes. */
  function SaveMagnitude(a: Archive, negative: bool, ll: nat, size: nat): (r: Archive)
    requires 1 <= size <= IntMaxSize && Pow256(size - 1) <= ll < Pow256(size)
    ensures r.flags == a.flags && r.bigEndianHost == a.bigEndianHost
    ensures |a.stream| < |r.stream| && r.stream[..|a.stream|] == a.stream
    ensures IsPortableEncoding(r.stream[|a.stream|..], if negative then -(ll as int) else ll, WritesBigEndian(a))
  {
    IntMaxFitsInWord();
    Pow256Monotone(size, IntMaxSize);
    HeaderThenLowBytesEncode(negative, ll, size, WritesBigEndian(a));
    var header := CharByte(if negative then -(size as int) else size);
    var w := [header] + MagnitudeBytes(a, ll, size);
    assert (a.stream + w)[|a.stream|..] == w;
    a.(stream := a.stream + w)
  }

  /** Lines 60-82 for a positive magnitude: run the count loop, which ends
      with the fewest bytes that hold `ll`, then write count and bytes. */
  function SaveCounted(a: Archive, negative: bool, ll: nat): (r: Archive)
    requires 0 < ll < Pow256(IntMaxSize)
    ensures r.flags == a.flags && r.bigEndianHost == a.bigEndianHost
    ensures |a.stream| < |r.stream| && r.stream[..|a.stream|] == a.stream
    ensures IsPortableEncoding(r.stream[|a.stream|..], if negative then -(ll as int) else ll, WritesBigEndian(a))
  {
    ByteCountAtMost(ll, IntMaxSize);
    ByteCountIsMinimal(ll);
    SizeLoopCountsBytes(ll, 0, IntMaxSize);
    var size := SizeLoop(ll, 0, IntMaxSize).value;
    SaveMagnitude(a, negative, ll, size)
  }

  /** portable_binary_oarchive::save_impl (lines 41-83). `maxsize` is never
      consulted. The source leaves l = INTMAX_MIN undefined (see
      SizeLoopNeverEndsOnMin), so callers must avoid it. */
  function SaveImpl(a: Archive, l: int, maxsize: int): (r: Archive)
    requires IsIntMax(l) && l != IntMaxMin
    ensures r.flags == a.flags && r.bigEndianHost == a.bigEndianHost
    ensures |a.stream| < |r.stream| && r.stream[..|a.stream|] == a.stream
    ensures IsPortableEncoding(r.stream[|a.stream|..], l, WritesBigEndian(a))
  {
    if l == 0 then
      var r := a.(stream := a.stream + [CharByte(0)]);
      assert r.stream[|a.stream|..] == [0];
      r
    else
      var negative := l < 0;
      var ll := if negative then NegateIntMax(l) else l;
      SaveCounted(a, negative, ll)
  }

  /** save_impl with the magnitude of a negative value computed on
      uintmax_t, which makes INTMAX_MIN encode as -8 followed by the eight
      bytes of 2^63. */
  function SaveImplFixed(a: Archive, l: int, maxsize: int): (r: Archive)
    requires IsIntMax(l)
    ensures r.flags == a.flags && r.bigEndianHost == a.bigEndianHost
    ensures |a.stream| < |r.stream| && r.stream[..|a.stream|] == a.stream
    ensures IsPortableEncoding(r.stream[|a.stream|..], l, WritesBigEndian(a))
  {
    IntMaxFitsInWord();
    if l == 0 then
      var r := a.(stream := a.stream + [CharByte(0)]);
      assert r.stream[|a.stream|..] == [0];
      r
    else if l < 0 then
      SaveCounted(a, true, NegateUIntMax(l))
    else
      SaveCounted(a, false, l)
  }

  /** Away from INTMAX_MIN the fix writes exactly what the original writes. */
  lemma SaveImplFixedAgrees(a: Archive, l: int, maxsize: int)
    requires IsIntMax(l) && l != IntMaxMin
    ensures SaveImplFixed(a, l, maxsize) == SaveImpl(a, l, maxsize)
  {
  }

  // ---------------------------------------------------------------------
  // Reading the encoding back
  // ---------------------------------------------------------------------

  /** A decoded integer and the number of bytes its encoding took. */
  datatype Decoded = Decoded(value: int, consumed: nat)

  /** A reader for the encoding: the signed count, then that many magnitude
      bytes in the given order. None when the count is out of range or the
      input ends early. */
  function DecodeInteger(bs: seq<byte>, bigEndian: bool): (r: Option<Decoded>)
    ensures r.Some? ==> 1 <= r.value.consumed <= |bs| && r.value.consumed <= 1 + IntMaxSize
    ensures r.Some? ==> Abs(r.value.value) < Pow256(r.value.consumed - 1)
  {
    if |bs| == 0 then None
    else
      var n := SignedValue(bs[0]);
      var size := Abs(n);
      if size > IntMaxSize || |bs| < 1 + size then None
      else
        var field := bs[1..1 + size];
        var mag := LittleEndianValue(if bigEndian then Reverse(field) else field);
        Some(Decoded(if n < 0 then -(mag as int) else mag, 1 + size))
  }

  /** Any portable encoding, followed by anything, decodes to its value and
      consumes exactly the encoding. */
  lemma PortableEncodingDecodes(w: seq<byte>, rest: seq<byte>, l: int, bigEndian: bool)
    requires IsPortableEncoding(w, l, bigEndian)
    ensures DecodeInteger(w + rest, bigEndian) == Some(Decoded(l, |w|))
  {
    var bs := w + rest;
    if l != 0 {
      var size := Abs(SignedValue(w[0]));
      assert bs[1..1 + size] == w[1..];
      var low := LowBytes(Abs(l), size);
      LowBytesRoundTrip(Abs(l), size);
      if bigEndian {
        ReverseReverse(low);
      }
    } else {
      assert bs[0] == 0;
    }
  }

  /** Each value has only one portable encoding in a given byte order. */
  lemma PortableEncodingUnique(w1: seq<byte>, w2: seq<byte>, l: int, bigEndian: bool)
    requires IsPortableEncoding(w1, l, bigEndian) && IsPortableEncoding(w2, l, bigEndian)
    ensures w1 == w2
  {
    if l != 0 {
      EncodingCountIsByteCount(w1, l, bigEndian);
      EncodingCountIsByteCount(w2, l, bigEndian);
      SignedValueInjective(w1[0], w2[0]);
      assert w1 == [w1[0]] + w1[1..];
      assert w2 == [w2[0]] + w2[1..];
    }
  }

  /** The count byte of a portable encoding of a nonzero value is
      determined by the value. */
  lemma EncodingCountIsByteCount(w: seq<byte>, l: int, bigEndian: bool)
    requires l != 0 && IsPortableEncoding(w, l, bigEndian)
    ensures SignedValue(w[0]) == if l < 0 then -(ByteCount(Abs(l)) as int) else ByteCount(Abs(l))
    ensures w[1..] == var low := LowBytes(Abs(l), ByteCount(Abs(l)));
                      if bigEndian then Reverse(low) else low
  {
    ByteCountUnique(Abs(l), Abs(SignedValue(w[0])));
  }

  lemma SignedValueInjective(b1: byte, b2: byte)
    requires SignedValue(b1) == SignedValue(b2)
    ensures b1 == b2
  {
  }

  /** What save_impl appends is read back as the value it was given, and
      the reader stops right after it. */
  lemma SaveImplRoundTrip(a: Archive, l: int, maxsize: int, rest: seq<byte>)
    requires IsIntMax(l) && l != IntMaxMin
    ensures var w := SaveImpl(a, l, maxsize).stream[|a.stream|..];
            DecodeInteger(w + rest, WritesBigEndian(a)) == Some(Decoded(l, |w|))
  {
    var w := SaveImpl(a, l, maxsize).stream[|a.stream|..];
    PortableEncodingDecodes(w, rest, l, WritesBigEndian(a));
  }

  /** With the fix every intmax_t, INTMAX_MIN included, is read back. */
  lemma SaveImplFixedRoundTrip(a: Archive, l: int, maxsize: int, rest: seq<byte>)
    requires IsIntMax(l)
    ensures var w := SaveImplFixed(a, l, maxsize).stream[|a.stream|..];
            DecodeInteger(w + rest, WritesBigEndian(a)) == Some(Decoded(l, |w|))
  {
    var w := SaveImplFixed(a, l, maxsize).stream[|a.stream|..];
    PortableEncodingDecodes(w, rest, l, WritesBigEndian(a));
  }

  // ---------------------------------------------------------------------
  // Worked encodings
  // ---------------------------------------------------------------------

  /** 0 is a single 0 byte. */
  lemma ZeroExample()
    ensures SaveImpl(Archive(0, false, []), 0, 8).stream == [0x00]
  {
    var r := SaveImpl(Archive(0, false, []), 0, 8).stream;
    assert r[0..] == r;
  }

  /** 300 (0x012C) takes two bytes, least significant first on a
      little-endian host when no order is requested. */
  lemma LittleEndianExample()
    ensures SaveImpl(Archive(0, false, []), 300, 8).stream == [0x02, 0x2C, 0x01]
  {
    assert Pow256(1) == 256 && Pow256(2) == 65536;
    assert LowBytes(300, 2) == [0x2C, 0x01] by {
      assert LowBytes(1, 1) == [0x01];
    }
    var w: seq<byte> := [0x02, 0x2C, 0x01];
    assert w[1..] == [0x2C, 0x01];
    assert IsPortableEncoding(w, 300, false);
    assert !WritesBigEndian(Archive(0, false, []));
    var r := SaveImpl(Archive(0, false, []), 300, 8).stream;
    assert r[0..] == r;
    PortableEncodingUnique(r, w, 300, false);
  }

  /** The same value most significant first when a little-endian host is
      asked for endian_big. */
  lemma BigEndianExample()
    ensures SaveImpl(Archive(EndianBig, false, []), 300, 8).stream == [0x02, 0x01, 0x2C]
  {
    assert Pow256(1) == 256 && Pow256(2) == 65536;
    assert LowBytes(300, 2) == [0x2C, 0x01] by {
      assert LowBytes(1, 1) == [0x01];
    }
    assert Reverse([0x2C, 0x01]) == [0x01, 0x2C];
    var w: seq<byte> := [0x02, 0x01, 0x2C];
    assert w[1..] == [0x01, 0x2C];
    assert IsPortableEncoding(w, 300, true);
    assert WritesBigEndian(Archive(EndianBig, false, []));
    var r := SaveImpl(Archive(EndianBig, false, []), 300, 8).stream;
    assert r[0..] == r;
    PortableEncodingUnique(r, w, 300, true);
  }

  /** -1 is a count of -1 (the byte 0xFF) and the single byte 1. */
  lemma NegativeExample()
    ensures SaveImpl(Archive(0, true, []), -1, 8).stream == [0xFF, 0x01]
  {
    assert Pow256(1) == 256;
    assert LowBytes(1, 1) == [0x01];
    assert Reverse([0x01]) == [0x01];
    assert SignedValue(0xFF) == -1;
    var w: seq<byte> := [0xFF, 0x01];
    assert w[1..] == [0x01];
    assert IsPortableEncoding(w, -1, true);
    assert WritesBigEndian(Archive(0, true, []));
    var r := SaveImpl(Archive(0, true, []), -1, 8).stream;
    assert r[0..] == r;
    PortableEncodingUnique(r, w, -1, true);
  }

  /** With the fix, INTMAX_MIN is a count of -8 followed by the eight bytes
      of 2^63. */
  lemma FixedEncodesIntMaxMin()
    ensures SaveImplFixed(Archive(0, false, []), IntMaxMin, 8).stream
            == [0xF8, 0x00, 0x00, 0x00, 0x00, 0x00, 0x00, 0x00, 0x80]
  {
    IntMaxFitsInWord();
    var w: seq<byte> := [0xF8, 0x00, 0x00, 0x00, 0x00, 0x00, 0x00, 0x00, 0x80];
    assert LowBytes(0x80, 1) == [0x80];
    assert LowBytes(0x8000, 2) == [0x00, 0x80];
    assert LowBytes(0x80_0000, 3) == [0x00, 0x00, 0x80];
    assert LowBytes(0x8000_0000, 4) == [0x00, 0x00, 0x00, 0x80];
    assert LowBytes(0x80_0000_0000, 5) == [0x00, 0x00, 0x00, 0x00, 0x80];
    assert LowBytes(0x8000_0000_0000, 6) == [0x00, 0x00, 0x00, 0x00, 0x00, 0x80];
    assert LowBytes(0x80_0000_0000_0000, 7) == [0x00, 0x00, 0x00, 0x00, 0x00, 0x00, 0x80];
    assert LowBytes(0x8000_0000_0000_0000, 8) == w[1..];
    assert Pow256(7) == 0x100_0000_0000_0000;
    assert SignedValue(0xF8) == -8;
    assert IsPortableEncoding(w, IntMaxMin, false);
    assert !WritesBigEndian(Archive(0, false, []));
    var r := SaveImplFixed(Archive(0, false, []), IntMaxMin, 8).stream;
    assert r[0..] == r;
    PortableEncodingUnique(r, w, IntMaxMin, false);
  }

  // ---------------------------------------------------------------------
  // init
  // ---------------------------------------------------------------------

  /** The byte written last by init (line 104): `m_flags >> CHAR_BIT` (a
      division by 256) cut down to an unsigned char. It holds bits 8 to 15
      of the flags, where the byte-order requests live. */
  function FlagsByte(flags: Flags): (b: byte)
    ensures b as int * 256 == flags % 0x1_0000 - flags % 256
  {
    ((flags / 256) % 256) as byte
  }

  /** portable_binary_oarchive::init (lines 85-105). `header` stands for the
      bytes the archive signature and library version writes produce. */
  function Init(a: Archive, flags: Flags, header: seq<byte>): (r: Result<Archive, ArchiveError>)
    ensures r.Failure? <==> a.flags == BothOrders
    ensures r.Success? ==> r.value.flags == a.flags && r.value.bigEndianHost == a.bigEndianHost
    ensures r.Success? && HasBit(flags, NoHeader) ==> r.value.stream == a.stream + [FlagsByte(a.flags)]
    ensures r.Success? && !HasBit(flags, NoHeader) ==> r.value.stream == a.stream + header + [FlagsByte(a.flags)]
  {
    if a.flags == BothOrders then
      Failure(PortableBinaryOArchiveException)
    else
      var prefix := if !HasBit(flags, NoHeader) then header else [];
      Success(a.(stream := a.stream + prefix + [FlagsByte(a.flags)]))
  }

  /** Flags holding only the two byte-order requests survive the trip
      through the flags byte: shifting it back up restores them. */
  lemma FlagsByteRecoversOrderBits(f: Flags)
    requires OnlyOrderBits(f)
    ensures FlagsByte(f) as int * 256 == f
  {
  }

  /** When m_flags holds only byte-order requests, init fails exactly when
      both are present. */
  lemma InitFailsOnConflictingOrder(a: Archive, flags: Flags, header: seq<byte>)
    requires OnlyOrderBits(a.flags)
    ensures Init(a, flags, header).Failure? <==> (HasBit(a.flags, EndianBig) && HasBit(a.flags, EndianLittle))
  {
  }

  /** Among flag sets of byte-order requests, the order magnitude bytes are
      written in is the same on every host exactly when one order is
      requested; asking for both would make it depend on the host. */
  lemma OrderIsPortableIffOneRequest(f: Flags, s: seq<byte>)
    requires OnlyOrderBits(f)
    ensures WritesBigEndian(Archive(f, false, s)) == WritesBigEndian(Archive(f, true, s))
            <==> (f == EndianBig || f == EndianLittle)
    ensures f == EndianBig ==> WritesBigEndian(Archive(f, false, s)) && WritesBigEndian(Archive(f, true, s))
    ensures f == EndianLittle ==> !WritesBigEndian(Archive(f, false, s)) && !WritesBigEndian(Archive(f, true, s))
  {
  }
}
