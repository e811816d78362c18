# Grapevine step-circuit input encoding, in Dafny

This project models the input-encoding layer of the Grapevine folding-scheme
prover (`src/utils/inputs.rs`). That layer turns one step's private input
into the ten BN254 scalar-field elements the Grapevine circom step circuit
takes as external input. A step's input is a `CircomPrivateInput`: an
optional phrase, two username slots, two auth-secret slots and a chaff flag.

- `serialize_phrase` checks that a phrase has at most 180 bytes. It then packs
  the phrase into six 32-byte big-endian integers. Each integer is a zero byte
  followed by a 31-byte chunk of the phrase, padded with zeros.
- `serialize_username` checks that a username has at most 30 bytes. It packs
  the username the same way, at byte offset 1 of a single 32-byte buffer.
- `prepare_external_inputs` builds phrase (6) ++ usernames (2) ++ auth secrets
  (2) and reduces every value into the field. The slots follow one rule:
  - slot 0 present: both slots are used;
  - only slot 1 present: the pair is `[0, slot 1]`;
  - neither present: the pair is two random field elements.
  A missing phrase becomes six random field elements.
- `CircomPrivateInput::empty`, `uninitialized` and `get_z0` are small
  constructors and predicates.

Files and modules:

- `wrappers.dfy` (`Wrappers`): `Option` and `Result`.
- `big_endian.dfy` (`BigEndian`): bytes and the big-endian reading
  `BigInt::from_bytes_be(Plus, ..)`, with its fixed-width inverse and the
  bounds it obeys.
- `field.dfy` (`Field`): the BN254 scalar-field order `P`. It also gives
  `FromBigInt`, which models `to_bytes_le` followed by
  `from_le_bytes_mod_order`. `to_bytes_le` keeps only the magnitude, so a value
  `v` becomes `|v| mod P`.
- `utils.dfy` (`Utils`): the constants `SECRET_FIELD_LENGTH`,
  `MAX_SECRET_LENGTH` and `MAX_USERNAME_LENGTH` (`src/utils/mod.rs:7-9`).
- `inputs.dfy` (`Inputs`): the record, the two serializers, the assembler and
  their properties.

How the model is shaped:

- The two serializers are imperative in the source: a loop over six chunks,
  and `copy_from_slice` into a mutable 32-byte buffer. Each one is a method
  over arrays (`SerializePhrase`, `SerializeUsername`, with `CopyFromSlice`).
  Each method is proved equal to a pure function (`EncodePhrase`,
  `EncodeUsername`), and the assembler uses those functions.
- Strings are byte sequences, because Rust's `String::len` counts bytes.
- The `unwrap()` panics of `prepare_external_inputs` are preconditions
  (`Accepted`). They are: a phrase over 180 bytes, a username over 30 bytes,
  and slot 0 present while slot 1 is absent.
- The random values come from a supplied sequence `rng`. Each value is in
  `[0, P)`, the range of `random_f_bigint`. They are used in the order the
  source draws them: phrase, then usernames, then secrets.

Two behaviours of the code worth noting:

- Auth secrets are reduced as `|v| mod P` and not as `v mod P`, because
  `to_bytes_le` drops the sign (`src/utils/inputs.rs:148-149`).
- Nothing requires an empty record to be marked as chaff. The chaff flag is
  never read by the assembler (`ChaffIgnored`).

## Model

| member | source | states |
|---|---|---|
| `Inputs.Empty` | src/utils/inputs.rs:23-30 | every phrase, username and secret slot is absent and the chaff flag is the one given |
| `Inputs.Uninitialized` | src/utils/inputs.rs:32-37 | a record is uninitialized (no phrase, no username, no secret, not chaff) exactly when it equals `empty(false)` |
| `Inputs.EmptyUninitialized` | src/utils/inputs.rs:23-37 | `empty(c)` is uninitialized exactly when `c` is false |
| `Inputs.Z0` | src/utils/inputs.rs:41-47 | the initial IVC state is four field zeros |
| `Inputs.SampleUpperBound` | src/utils/inputs.rs:50-54 | the sampling bound, the modulus read back from its 32-byte big-endian form, is exactly P, so random values lie in [0, P) |
| `Inputs.IsSampleBound` | src/utils/inputs.rs:50-54 | the range assumed of every supplied random value is exactly [0, upper bound) of the sampler |
| `Inputs.EncodePhrase` | src/utils/inputs.rs:63-67 | the phrase is rejected with the phrase error exactly when it is over 180 bytes; otherwise there are exactly 6 values |
| `Inputs.SerializeChunk` | src/utils/inputs.rs:72-83 | one loop pass (a zeroed 32-byte buffer, the three-way slice copy at offset 1, the big-endian reading) gives exactly chunk i of `EncodePhrase`; every slice and copy is in bounds |
| `Inputs.SerializePhrase` | src/utils/inputs.rs:63-86 | the length check and the loop over six chunks return exactly `EncodePhrase` |
| `Inputs.CopyFromSlice` | src/utils/inputs.rs:78-80 | copying into `dst[lo..hi]` replaces exactly that range with the source bytes and leaves the rest of the buffer unchanged |
| `Inputs.ChunkPlacement` | src/utils/inputs.rs:72-83 | the 32-byte form of chunk i is a zero byte, then phrase bytes 31i..31i+31, with zero past the phrase's end; a chunk starting at or past the end is 0 |
| `Inputs.PhraseBound` | src/utils/inputs.rs:74-83 | every chunk is below 2^248 < P, so the field reduction cannot wrap |
| `Inputs.PhrasePayloads` | src/utils/inputs.rs:70-83 | the payload bytes 1..32 of the six chunks, in order, are the phrase followed by zeros up to 186 bytes |
| `Inputs.PhraseRoundTrip` | src/utils/inputs.rs:70-83 | the payloads cut to the phrase's length give the phrase back |
| `Inputs.EncodeUsername` | src/utils/inputs.rs:94-98 | the username is rejected with the username error exactly when it is over 30 bytes |
| `Inputs.SerializeUsername` | src/utils/inputs.rs:94-104 | the buffer fill returns exactly `EncodeUsername`, the big-endian value of a zero byte, the username and zero padding to 32 bytes |
| `Inputs.UsernameBound` | src/utils/inputs.rs:100-103 | an encoded username is below 2^248 < P, is a multiple of 256 (its last byte is always 0), and is 0 for the empty name |
| `Inputs.UsernameRoundTrip` | src/utils/inputs.rs:100-103 | bytes 1..1+len of the value's 32-byte form give the username back |
| `Inputs.Accepted` | src/utils/inputs.rs:108-140 | the record is assembled without a panic exactly when every `serialize_phrase` and `serialize_username` result that is unwrapped is `Ok`, and slot 1 is present wherever slot 0 is, for usernames and for secrets |
| `Inputs.PhraseSegment` | src/utils/inputs.rs:108-113 | the phrase segment has six values; it uses six random values exactly when there is no phrase, and passes on the rest |
| `Inputs.UsernameSegment` | src/utils/inputs.rs:117-127 | the username segment has two values; it uses two random values exactly when both slots are empty, and passes on the rest |
| `Inputs.SecretSegment` | src/utils/inputs.rs:130-140 | the auth-secret segment has two values; it uses two random values exactly when both slots are empty, and passes on the rest |
| `Inputs.ToFieldElements` | src/utils/inputs.rs:146-150 | the reduction keeps the length and maps element k to the field element of value k |
| `Inputs.PrepareExternalInputs` | src/utils/inputs.rs:106-151 | the result has exactly 10 elements, each below P |
| `Inputs.Concatenated` | src/utils/inputs.rs:145-151 | the output is phrase segment ++ username segment ++ secret segment, each segment drawing from the random values the earlier ones left |
| `Inputs.PhraseSegmentOfInputs` | src/utils/inputs.rs:108-113 | elements 0..6 are the encoded phrase, unreduced, when there is one; otherwise they are the first six random values |
| `Inputs.UsernameSegmentOfInputs` | src/utils/inputs.rs:115-127 | elements 6..8: both names encoded if slot 0 is present; `[0, enc(slot 1)]` if only slot 1 is; else the next two random values |
| `Inputs.SecretSegmentOfInputs` | src/utils/inputs.rs:129-140 | elements 8..10: both secrets as `|s| mod P` if slot 0 is present; `[0, |s1| mod P]` if only slot 1 is; else the next two random values |
| `Inputs.InputsRecoverable` | src/utils/inputs.rs:106-151 | the phrase and every present username can be decoded back from the assembled vector |
| `Inputs.ChaffIgnored` | src/utils/inputs.rs:106-151 | the chaff flag never changes the assembled vector |
| `Inputs.EmptyInputsAreRandom` | src/utils/inputs.rs:23-30 | an empty record assembles to exactly the first ten random values, in order |
| `Field.FromBigInt` | src/utils/inputs.rs:146-150 | reducing a big integer into the field gives an element below P |
| `Field.FromBigIntCanonical` | src/utils/inputs.rs:146-150 | values already in [0, P) are unchanged by the reduction |
| `Field.FromBigIntDropsSign` | src/utils/inputs.rs:148-149 | `v` and `-v` reduce to the same element, because `to_bytes_le` drops the sign |
| `BigEndian.ToBytesFromBytes` | src/utils/inputs.rs:83 | reading a big-endian byte string as an integer loses nothing: the bytes come back at the same width |
| `BigEndian.FromBytes` | src/utils/inputs.rs:83 | `BigInt::from_bytes_be(Plus, ..)`: a string of n bytes reads as a value below 256^n |

## Left out

- Entropy: `random_f_bigint` draws from `OsRng` (`src/utils/inputs.rs:53`). The model takes the drawn values as a parameter and keeps only their range [0, P).
- `random_fr` in `src/utils/mod.rs` is not part of this model. It samples a field element directly from the OS source and is not used by the encoding.
- `PrepareExternalInputs`: the `unwrap()` panics are preconditions (`Accepted`), not an error result. Rust aborts there instead of returning an error.
- `Inputs.SerializePhrase` and `Inputs.SerializeUsername` return `seq`s and naturals. They do not return a Rust fixed-size array of `BigInt` or a boxed error with a message; the two messages are the `Error` constructors.
- The field is fixed to BN254's scalar field. The source is generic over `PrimeField`, but Grapevine instantiates it with BN254's `Fr`.
- `FromBigInt` is stated as `|v| mod P`. It does not reproduce the little-endian byte conversion of arkworks and `num_bigint`.
- UTF-8 well-formedness is not modelled. The code measures and copies raw bytes.
- `src/circom.rs` is a test module that drives external circuit libraries on compiled artifacts from disk. `src/nova.rs` holds no live code. Neither is part of this model.
