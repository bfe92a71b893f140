# Portable integer encoding and object-lifetime helpers

A Dafny model of two small pieces of HPX:

- **The portable binary output archive** (`src/util/portable_binary_oarchive.cpp`).
  `save_impl` writes a signed machine integer (`intmax_t`, 64 bits) as a
  single `0` byte when it is zero. Any other value becomes a signed count
  byte N, negative exactly when the value is, followed by the |N| low-order
  bytes of its magnitude. |N| is the fewest bytes that hold the magnitude.
  The magnitude bytes come out in the host's byte order, reversed when the
  archive's flags request the other order. `init` rejects conflicting
  byte-order flags. It then writes an optional signature/version header and
  one byte of flags.
- **The fallback lifetime helpers** (`construct_at.hpp`). `construct_at`
  places a new object at an address and returns that address. `relocate_at`
  move-constructs an object at `dst` from `*src`, then runs the destructor
  on `dst` (not on `src`) and returns `dst`.

Layout:

- `bytes.dfy` (module `Bytes`): the `byte` type, powers of 256, low-order
  bytes of a number, little-endian value, byte reversal, and the minimal
  byte count, with their round-trip and minimality lemmas.
- `portable_binary_oarchive.dfy` (module `PortableBinaryOArchive`): the archive
  state, `save_impl`, `init`, and a reference reader (`DecodeInteger`).
  `IsPortableEncoding` is the format's specification. The module also holds
  the round-trip and uniqueness lemmas and worked encodings.
- `construct_at.dfy` (module `Lifetime`): a map from addresses to slots
  (`Empty`, `Live(v)`, `Destroyed`) plus a log of construction and destruction
  events, each naming the address and the object built or ended, and the
  helpers as transitions on it.
- `wrappers.dfy` (module `Wrappers`): `Option` and `Result`.

The archive's stream is a byte sequence that each write appends to. The
host byte order (`BOOST_BIG_ENDIAN`) is a field of the archive. The
`unsigned int` flags are numbers below 2^32. A bit test `(f & bit) != 0` is
written as `(f / bit) % 2 == 1`. Arithmetic right shift on `intmax_t` is
floor division by 256. An overflowing `intmax_t` result is wrapped modulo
2^64 (`ToIntMax`).

## Model

| member | source | states |
|---|---|---|
| PortableBinaryOArchive.SaveImpl | src/util/portable_binary_oarchive.cpp:41-83 | For every intmax_t except INTMAX_MIN, save_impl only appends to the stream, and what it appends is the portable encoding of `l` in the archive's effective byte order: a lone 0 for zero, otherwise a count byte N with 1 <= abs(N) <= 8, N < 0 exactly when l < 0, abs(N) minimal for abs(l), then the low abs(N) bytes of abs(l), 1 + abs(N) bytes in all |
| PortableBinaryOArchive.SaveCounted | src/util/portable_binary_oarchive.cpp:60-82 | For a positive magnitude that fits in intmax_t, running the size loop and then writing the count byte and the field appends exactly a portable encoding of the signed magnitude, and nothing else |
| PortableBinaryOArchive.SaveMagnitude | src/util/portable_binary_oarchive.cpp:65-82 | Given the size the loop computed (256^(size-1) <= ll < 256^size), the count byte followed by the save_binary bytes is a portable encoding of the signed magnitude |
| PortableBinaryOArchive.SizeLoop | src/util/portable_binary_oarchive.cpp:60-63 | When the do-while loop ends within the given rounds, its count has grown by at least one and by no more than the number of rounds |
| PortableBinaryOArchive.NegateIntMax | src/util/portable_binary_oarchive.cpp:56 | `-l` in intmax_t arithmetic stays in range: it is the true negation for every value except INTMAX_MIN, which it maps to itself |
| PortableBinaryOArchive.WritesBigEndian | src/util/portable_binary_oarchive.cpp:74-81 | A request for endian_big alone gives big-endian output and endian_little alone gives little-endian output, on either host; with neither flag the output follows the host's order |
| PortableBinaryOArchive.MagnitudeBytes | src/util/portable_binary_oarchive.cpp:73-82 | The window the pointer arithmetic selects on the host's memory image, after the conditional reverse_bytes, is the low `size` bytes of the magnitude: least significant first when the effective order is little-endian, reversed when it is big-endian, on either host |
| PortableBinaryOArchive.HeaderThenLowBytesEncode | src/util/portable_binary_oarchive.cpp:60-82 | A signed minimal count followed by the low bytes in the given order meets the format's specification |
| PortableBinaryOArchive.CharByte | src/util/portable_binary_oarchive.cpp:65-67 | static_cast<char> of the signed count stores a byte that reads back as the same signed count |
| PortableBinaryOArchive.ToIntMax | src/util/portable_binary_oarchive.cpp:56 | Wrapping to intmax_t gives a value in range, congruent modulo 2^64, and unchanged when it already fits |
| PortableBinaryOArchive.SizeLoopCountsBytes | src/util/portable_binary_oarchive.cpp:60-63 | The do-while shift loop, started on a positive magnitude, ends with size equal to the minimal byte count |
| PortableBinaryOArchive.SizeLoopNeverEndsOnNegative | src/util/portable_binary_oarchive.cpp:60-63 | Started on a negative value the arithmetic shift never reaches 0, so the loop does not end within any number of rounds |
| PortableBinaryOArchive.SizeLoopNeverEndsOnMin | src/util/portable_binary_oarchive.cpp:53-63 | For l = INTMAX_MIN, `-l` wraps back to INTMAX_MIN and the size loop never ends: the encoder must not be given INTMAX_MIN |
| Bytes.ByteCountIsMinimal | src/util/portable_binary_oarchive.cpp:60-63 | The loop's count is minimal: abs(l) < 256^abs(N) and 256^(abs(N)-1) <= abs(l) |
| Bytes.ByteCountAtMost | src/util/portable_binary_oarchive.cpp:60-63 | A magnitude that fits in k bytes gets a count of at most k, so abs(N) <= sizeof(intmax_t) |
| Bytes.ByteCountUnique | src/util/portable_binary_oarchive.cpp:60-63 | Only one count satisfies both minimality bounds |
| Bytes.LowBytesPrefix | src/util/portable_binary_oarchive.cpp:78-82 | On a little-endian host the first `size` bytes of the value's memory image are its low `size` bytes |
| Bytes.LowBytesBigEndianSuffix | src/util/portable_binary_oarchive.cpp:74-77 | On a big-endian host the last `size` bytes of the memory image are the low `size` bytes, most significant first |
| Bytes.LowBytesRoundTrip | src/util/portable_binary_oarchive.cpp:73-82 | The low n bytes of a magnitude below 256^n read back, least significant first, as that magnitude |
| Bytes.LittleEndianValueRoundTrip | src/util/portable_binary_oarchive.cpp:73-82 | Every byte string is the low bytes of the number it denotes, so the byte field is a bijection |
| PortableBinaryOArchive.PortableEncodingDecodes | src/util/portable_binary_oarchive.cpp:46-82 | Any portable encoding, followed by anything, reads back as its value and consumes exactly the encoding |
| PortableBinaryOArchive.PortableEncodingUnique | src/util/portable_binary_oarchive.cpp:46-82 | A value has exactly one portable encoding in a given byte order |
| PortableBinaryOArchive.EncodingCountIsByteCount | src/util/portable_binary_oarchive.cpp:60-67 | In any encoding of a nonzero value, the count byte is the signed minimal byte count and the field is the low bytes in order |
| PortableBinaryOArchive.SaveImplRoundTrip | src/util/portable_binary_oarchive.cpp:41-83 | Reading back what save_impl appended gives `l` and stops right after it |
| PortableBinaryOArchive.ZeroExample | src/util/portable_binary_oarchive.cpp:46-51 | Zero is written as the single byte 0 |
| PortableBinaryOArchive.LittleEndianExample | src/util/portable_binary_oarchive.cpp:60-82 | 300 on a little-endian host with no order request is written 02 2C 01 |
| PortableBinaryOArchive.BigEndianExample | src/util/portable_binary_oarchive.cpp:78-81 | endian_big on a little-endian host reverses the field: 300 is written 02 01 2C |
| PortableBinaryOArchive.NegativeExample | src/util/portable_binary_oarchive.cpp:65-67 | -1 on a big-endian host is written FF 01: the count -1, then the magnitude |
| PortableBinaryOArchive.NegateUIntMax | src/util/portable_binary_oarchive.cpp:56 | Negating a negative intmax_t in uintmax_t arithmetic gives its true magnitude, INTMAX_MIN included |
| PortableBinaryOArchive.SaveImplFixed | src/util/portable_binary_oarchive.cpp:53-58 | With the magnitude computed in unsigned arithmetic, every intmax_t, INTMAX_MIN included, is written as its portable encoding |
| PortableBinaryOArchive.SaveImplFixedAgrees | src/util/portable_binary_oarchive.cpp:53-58 | Away from INTMAX_MIN the fixed encoder writes the same bytes as the original |
| PortableBinaryOArchive.SaveImplFixedRoundTrip | src/util/portable_binary_oarchive.cpp:53-83 | With the fix every intmax_t reads back as itself |
| PortableBinaryOArchive.FixedEncodesIntMaxMin | src/util/portable_binary_oarchive.cpp:53-58 | With the fix, INTMAX_MIN is written as F8 followed by the eight bytes of 2^63 |
| PortableBinaryOArchive.Init | src/util/portable_binary_oarchive.cpp:85-105 | init fails with portable_binary_oarchive_exception exactly when m_flags equals endian_big combined with endian_little. Otherwise it appends the header unless no_header is set, then one flags byte, and keeps the flags and host order |
| PortableBinaryOArchive.InitFailsOnConflictingOrder | src/util/portable_binary_oarchive.cpp:87-91 | When m_flags holds only byte-order bits, init fails exactly when both endian_big and endian_little are set |
| PortableBinaryOArchive.FlagsByte | src/util/portable_binary_oarchive.cpp:104 | The byte `m_flags >> CHAR_BIT` cut to unsigned char is bits 8 to 15 of the flags: 256 times it equals the flags' low 16 bits less their low 8 bits |
| PortableBinaryOArchive.FlagsByteRecoversOrderBits | src/util/portable_binary_oarchive.cpp:104 | The byte `m_flags >> CHAR_BIT` cut to unsigned char, shifted back up, restores order-only flags |
| PortableBinaryOArchive.OrderIsPortableIffOneRequest | src/util/portable_binary_oarchive.cpp:73-81 | The effective order is the same on both hosts exactly when one order is requested. endian_big gives big-endian and endian_little little-endian on either host |
| Lifetime.ConstructAt | libs/core/type_support/include/hpx/type_support/construct_at.hpp:21-30 | construct_at returns `addr`, the slot at `addr` is Live with the constructed value, every other slot is unchanged, and one construction at `addr` of that value is recorded |
| Lifetime.DestroyAt | libs/core/type_support/include/hpx/type_support/construct_at.hpp:41 | The destructor call leaves the slot Destroyed, no other slot changes, and one destruction at that address of the object that was live there is recorded |
| Lifetime.MoveOut | libs/core/type_support/include/hpx/type_support/construct_at.hpp:40 | Moving from `*src` yields the move-constructed object and leaves `src` Live with its moved-from value; no event is recorded |
| Lifetime.RelocateAt | libs/core/type_support/include/hpx/type_support/construct_at.hpp:36-43 | relocate_at returns `dst`. Afterwards `dst` is Destroyed and a distinct `src` is still Live, holding its moved-from value. No other slot changes. The events are a construction at `dst` of the object move-constructed from `*src`, then a destruction at `dst` of that same object |
| Lifetime.RelocateAtEndsDstNotSrc | libs/core/type_support/include/hpx/type_support/construct_at.hpp:40-42 | relocate_at returns a pointer to a dead object and leaves the source alive. Intended relocation does the reverse, so the two outcomes differ |
| Lifetime.RelocateAtEventCounts | libs/core/type_support/include/hpx/type_support/construct_at.hpp:36-43 | `dst` gains one construction and one destruction, and `src` gains no lifetime event |
| Lifetime.RelocateAtKeepsConsistent | libs/core/type_support/include/hpx/type_support/construct_at.hpp:36-43 | Relocating into a slot with no live object keeps every slot in step with its event history |
| Lifetime.ConstructAtKeepsConsistent | libs/core/type_support/include/hpx/type_support/construct_at.hpp:28-29 | Constructing into a slot with no live object keeps every slot in step with its event history |
| Lifetime.DestroyAtKeepsConsistent | libs/core/type_support/include/hpx/type_support/construct_at.hpp:41 | Destroying a live object keeps every slot in step with its event history |
| Lifetime.MoveOutKeepsConsistent | libs/core/type_support/include/hpx/type_support/construct_at.hpp:40 | Moving out of an object changes no slot's history |
| Lifetime.RelocateAtIntended | libs/core/type_support/include/hpx/type_support/construct_at.hpp:36-43 | Relocation as P1144 defines it returns `dst`. Afterwards `dst` is Live with the object move-constructed from `*src`, `src` is Destroyed, and the events are a construction at `dst` of the moved object and a destruction at `src` of the moved-from object |
| Lifetime.RelocateAtIntendedEventCounts | libs/core/type_support/include/hpx/type_support/construct_at.hpp:36-43 | Intended relocation gives `dst` exactly one construction and `src` exactly one destruction |
| Lifetime.RelocateAtIntendedKeepsConsistent | libs/core/type_support/include/hpx/type_support/construct_at.hpp:36-43 | Intended relocation into a slot with no live object keeps every slot in step with its event history |

## Findings

| source | as written | input that shows it | evidently intended | confidence | as-written member | corrected member |
|---|---|---|---|---|---|---|
| src/util/portable_binary_oarchive.cpp:53-63 | The magnitude of a negative value is `-l` computed on intmax_t. The count loop then shifts it right until it is 0. | l = INTMAX_MIN = -2^63. `-l` overflows, which is undefined behaviour. Two's complement hardware wraps it back to -2^63. The arithmetic shift then settles at -1, so the loop never ends. | Compute the magnitude in uintmax_t, giving 2^63. Then write the count -8 (byte F8) and the eight bytes of 2^63. | medium: the shift of a negative value is implementation-defined before C++20, and the overflow is undefined; not executed | PortableBinaryOArchive.SizeLoopNeverEndsOnMin (on PortableBinaryOArchive.SizeLoop) | PortableBinaryOArchive.SaveImplFixed (round trip in PortableBinaryOArchive.SaveImplFixedRoundTrip) |
| libs/core/type_support/include/hpx/type_support/construct_at.hpp:40-41 | After move-constructing at `dst`, the destructor runs on `dst`. | Any live `*src` and any distinct `dst`. The returned pointer is to a destroyed object, and `src` is left alive in its moved-from state. | Destroy `src` after the move, as P1144's relocate_at does. That leaves a live object at `dst` and ends the one at `src`. | high: the code is two lines; not executed | Lifetime.RelocateAtEndsDstNotSrc (on Lifetime.RelocateAt) | Lifetime.RelocateAtIntended (with Lifetime.RelocateAtIntendedEventCounts) |

## Left out

- libs/core/algorithms/tests/unit/algorithms/copyif_sender.cpp: a test harness. It covers runtime start-up, seeding, schedulers and `sync_wait`. The `copy_if` it exercises is not part of this model.
- The signature and version writes in `init` (lines 94-102) go through `operator<<` implementations that are not part of this model. They are the opaque `header` bytes parameter of `Init`.
- Explicit template instantiations and auto-link configuration (lines 11-32 and 109-124) are build plumbing.
- Stream I/O in `primitive_base_t::save` and `save_binary` is modelled as appending to a byte sequence. Stream failures are not modelled.
- `BOOST_BIG_ENDIAN` is a boolean field of the archive, not a build variant.
- The `noexcept` and SFINAE `Enable` clauses and the `using std::construct_at` / `using std::relocate_at` branches (construct_at.hpp lines 18-23 and 33-35) are compile-time selection. Only the fallback definitions are modelled.
- PortableBinaryOArchive.SaveImpl: takes `maxsize` only because the source's signature does. The source never reads it, and the model does not either.
- PortableBinaryOArchive.Init: the check is modelled as the code writes it, `m_flags == (endian_big | endian_little)`. That is an equality, not a test that both bits are set. The two agree only when m_flags holds no other bits. The constructor that fills m_flags from the user's flags is not part of this model. `InitFailsOnConflictingOrder` states the both-bits reading under that condition.
- The flag values (`no_header` = 1, `endian_big` = 0x4000, `endian_little` = 0x8000) come from the archive headers, which are not part of this model.
- With neither order flag set, magnitudes are written in the host's own order, so the bytes depend on the host. `OrderIsPortableIffOneRequest` states exactly when the order is independent of the host.
- The reading side of the archive (`portable_binary_iarchive`) is not part of this model. `DecodeInteger` is the model's own reader for the format. It serves as the partner for the round-trip lemmas.
- Lifetime: objects are values of a type parameter. The move constructor is a parameter function that gives the new object and the moved-from remainder. Exceptions thrown by constructors are not modelled.
- Lifetime.ConstructAt: constructing over a live object is allowed, as in C++. The old object's lifetime ends without a destructor event, so the consistency lemmas assume the target slot is not live.
