# Typed 32-byte digests of the Sui ledger

This project models `crates/sui-types/src/digests.rs`: the canonical 32-byte
`Digest` and the six nominal wrappers built on it — `CheckpointDigest`,
`CheckpointContentsDigest`, `TransactionDigest`, `TransactionEffectsDigest`,
`TransactionEventsDigest` and `ObjectDigest`. Each Rust type is a Dafny
datatype in a module of its own, so a digest of one kind cannot be used where
another kind is expected. Every wrapper has exactly the operations the Rust
type has, and no more.

Layout:

- `bytes.dfy` (`Bytes`): `u8`, the 32-byte array type `Bytes32`, and `[v; 32]` (`Filled`).
- `byte_order.dfy` (`ByteOrder`): the lexicographic byte order that `#[derive(PartialOrd, Ord)]`
  gives `[u8; 32]` (`Compare`). It is proved equal to a reference definition (`LexLess`) and
  proved to be a total order.
- `hex_format.dfy` (`HexFormat`): the text of the `LowerHex`/`UpperHex` formatters
  (`Render`), and a decoder for that text as its partner.
- `base58.dfy` (`Base58`): the external Base58 codec, passed in as a value (`Codec`).
  The laws the digest code relies on are stated as a predicate (`Lawful`).
- `sui_errors.dfy` (`SuiErrors`): the `SuiError::InvalidTransactionDigest` variant.
- `digest.dfy` (`Digests`): `Digest`, its constants, formatters and order. It also holds the
  shared body of every `from_str`: decode, then `copy_from_slice` into a zeroed 32-byte buffer.
- one file per wrapper type.

Two behaviours of the code are easy to misread; the model follows the code in both:

- `from_str` does not return an error when the Base58 text decodes to a length other
  than 32. `copy_from_slice` panics instead. The model gives this case its own outcome,
  `CopyPanic`, separate from `DecodeFailed`.
- Of the six wrappers, only `TransactionDigest`, `TransactionEffectsDigest` and `TransactionEventsDigest` have a
  `ZERO` constant. `CheckpointDigest` has none; it has only the derived `Default`, which is
  all zero. `ObjectDigest` has no `ZERO` either; its all-zero value is `MIN`.
  `TransactionEffectsDigest` has `ZERO` but no `Default`.

`TryFrom<&[u8]>` for `ObjectDigest` reports a wrong length with
`SuiError::InvalidTransactionDigest`, the same variant the transaction conversion uses.
The model keeps that shared variant.

## Model

| member | source | states |
|---|---|---|
| `ByteOrder.Compare` | crates/sui-types/src/digests.rs:14-16 | the derived `Ord::cmp` on byte arrays; no contract of its own: `CompareLessIff`, `CompareEqualIff`, `CompareReverse` and `CompareTransitive` state its properties |
| `ByteOrder.CompareLessIff` | crates/sui-types/src/digests.rs:14-16 | the derived comparison answers Less exactly when the first sequence sorts before the second: equal up to a first smaller byte, or a proper prefix |
| `ByteOrder.CompareEqualIff` | crates/sui-types/src/digests.rs:14-16 | the derived comparison answers Equal exactly on equal byte sequences, so Ord agrees with the derived Eq |
| `ByteOrder.CompareReverse` | crates/sui-types/src/digests.rs:14-16 | comparing b with a gives the reverse of comparing a with b (antisymmetry) |
| `ByteOrder.CompareTransitive` | crates/sui-types/src/digests.rs:14-16 | the strict byte order is transitive |
| `ByteOrder.ComparePointwise` | crates/sui-types/src/digests.rs:14-16 | an array bytewise no larger than another of the same length never sorts after it |
| `HexFormat.HexDigit` | crates/sui-types/src/digests.rs:92-118 | each nibble is written as one digit of the requested case, and that digit reads back as the nibble |
| `HexFormat.HexPair` | crates/sui-types/src/digests.rs:99 | one byte is written as exactly two digits, of the requested case, which read back as its high and its low nibble |
| `HexFormat.HexBody` | crates/sui-types/src/digests.rs:98-100 | the digits of all bytes, two characters per byte; `HexBodyAt` places each byte and `DecodeHexBodyRoundTrip` reads them back |
| `HexFormat.Render` | crates/sui-types/src/digests.rs:94-100 | the whole formatter text: `0x` first when the alternate flag is set, then two digits per byte |
| `HexFormat.HexBodyAt` | crates/sui-types/src/digests.rs:98-100 | byte i is written at positions 2i and 2i+1, high nibble first; two characters per byte |
| `HexFormat.RenderShape` | crates/sui-types/src/digests.rs:94-100 | a digest renders to 64 characters, or 66 with the alternate flag; the text starts with `0x` exactly when the flag is set |
| `HexFormat.DigitsOfRequestedCase` | crates/sui-types/src/digests.rs:92-118 | after the prefix every character is a lower-case digit for LowerHex and an upper-case digit for UpperHex |
| `HexFormat.DecodeHexBodyRoundTrip` | crates/sui-types/src/digests.rs:98-100 | reading the digit pairs back gives exactly the bytes written |
| `HexFormat.RenderRoundTrip` | crates/sui-types/src/digests.rs:92-104 | parsing the formatter's output, with or without the prefix, gives back the 32 bytes |
| `HexFormat.UpperIsRaisedLower` | crates/sui-types/src/digests.rs:106-118 | UpperHex output is LowerHex output with the digits a-f raised and the `0x` prefix unchanged |
| `Digests.ZeroIsAllZero` | crates/sui-types/src/digests.rs:24 | `Digest::ZERO` is 32 zero bytes, i.e. `new([0; 32])` |
| `Digests.New` | crates/sui-types/src/digests.rs:26-28 | `new` (and `From<[u8; 32]>`, :67-71) builds a digest holding exactly the given bytes |
| `Digests.IntoInner` | crates/sui-types/src/digests.rs:40-46 | `inner`/`into_inner` (and `From<Digest> for [u8; 32]`, :61-65) return the bytes held and nothing else; `NewIntoInnerInverse` closes the round trip |
| `Digests.Default` | crates/sui-types/src/digests.rs:14-24 | the derived default digest is all zero bytes and equals `ZERO` |
| `Digests.NewIntoInnerInverse` | crates/sui-types/src/digests.rs:61-71 | `new`/`From<[u8; 32]>` and `into_inner`/`From<Digest>` are mutual inverses |
| `Digests.Display` | crates/sui-types/src/digests.rs:79-84 | the Display text uses only the Base58 alphabet and decodes back to the digest's bytes |
| `Digests.Debug` | crates/sui-types/src/digests.rs:86-90 | Debug writes exactly the Display text |
| `Digests.Cmp` | crates/sui-types/src/digests.rs:14-16 | the derived order puts a before b exactly when a's bytes sort before b's, and answers Equal exactly on equal digests |
| `Digests.CmpTotalOrder` | crates/sui-types/src/digests.rs:14-16 | the digest order is antisymmetric, transitive and total |
| `Digests.WriteHex` | crates/sui-types/src/digests.rs:94-100 | the formatter loop writes the optional prefix and then two digits per byte, in byte order |
| `Digests.LowerHex` | crates/sui-types/src/digests.rs:92-104 | LowerHex writes the prefixed-or-not lower-case rendering of the bytes |
| `Digests.UpperHex` | crates/sui-types/src/digests.rs:106-118 | UpperHex writes the prefixed-or-not upper-case rendering of the bytes |
| `Digests.DecodedBytes` | crates/sui-types/src/digests.rs:203-206 | parsing fails with the decoder's error exactly when decoding fails, panics exactly when the decoded length is not 32, and otherwise yields the decoded bytes |
| `Digests.CopyDecoded` | crates/sui-types/src/digests.rs:204-205 | copying the decoded bytes into the zeroed 32-byte buffer yields exactly those bytes, or the length panic |
| `Digests.DisplayParses` | crates/sui-types/src/digests.rs:200-208 | the Display text of every digest parses back to its bytes |
| `Digests.ForeignTextFails` | crates/sui-types/src/digests.rs:205 | text with a character outside the Base58 alphabet fails to parse with the decoder's error |
| `CheckpointDigests.Default` | crates/sui-types/src/digests.rs:121-124 | the derived default checkpoint digest is all zero bytes |
| `CheckpointDigests.NewIntoInnerInverse` | crates/sui-types/src/digests.rs:164-174 | `new`/`From<[u8; 32]>` and `into_inner`/`From<CheckpointDigest>` are mutual inverses |
| `CheckpointDigests.New` | crates/sui-types/src/digests.rs:127-129 | `new` (and `From<[u8; 32]>`) builds a digest holding exactly the given bytes |
| `CheckpointDigests.IntoInner` | crates/sui-types/src/digests.rs:139-145 | `inner`/`into_inner` (and `From<_> for [u8; 32]`) return the inner digest's bytes, from which `Digest::new` rebuilds the inner digest |
| `CheckpointDigests.Display` | crates/sui-types/src/digests.rs:176-180 | Display delegates to the inner digest: text that decodes back to the bytes |
| `CheckpointDigests.Base58Encode` | crates/sui-types/src/digests.rs:147-149 | `base58_encode` yields the Display text |
| `CheckpointDigests.Cmp` | crates/sui-types/src/digests.rs:121-124 | the derived order is the byte order of the inner digest; Equal exactly on equal digests |
| `CheckpointDigests.LowerHex` | crates/sui-types/src/digests.rs:188-192 | writes exactly the inner digest's LowerHex text |
| `CheckpointDigests.UpperHex` | crates/sui-types/src/digests.rs:194-198 | writes exactly the inner digest's UpperHex text |
| `CheckpointDigests.FromStr` | crates/sui-types/src/digests.rs:200-208 | decode failure is an error, a decoded length other than 32 panics, 32 bytes give `new` of those bytes |
| `CheckpointDigests.FromStrDisplayRoundTrip` | crates/sui-types/src/digests.rs:176-208 | parsing the Display text of a checkpoint digest gives that digest back |
| `CheckpointContentsDigests.NewIntoInnerInverse` | crates/sui-types/src/digests.rs:251-261 | `new`/`From<[u8; 32]>` and `into_inner`/`From<CheckpointContentsDigest>` are mutual inverses |
| `CheckpointContentsDigests.New` | crates/sui-types/src/digests.rs:214-216 | `new` (and `From<[u8; 32]>`) builds a digest holding exactly the given bytes |
| `CheckpointContentsDigests.IntoInner` | crates/sui-types/src/digests.rs:226-232 | `inner`/`into_inner` (and `From<_> for [u8; 32]`) return the inner digest's bytes, from which `Digest::new` rebuilds the inner digest |
| `CheckpointContentsDigests.Display` | crates/sui-types/src/digests.rs:263-267 | Display delegates to the inner digest: text that decodes back to the bytes |
| `CheckpointContentsDigests.Base58Encode` | crates/sui-types/src/digests.rs:234-236 | `base58_encode` yields the Display text |
| `CheckpointContentsDigests.Cmp` | crates/sui-types/src/digests.rs:210-211 | the derived order is the byte order of the inner digest; Equal exactly on equal digests |
| `CheckpointContentsDigests.LowerHex` | crates/sui-types/src/digests.rs:277-281 | writes exactly the inner digest's LowerHex text |
| `CheckpointContentsDigests.UpperHex` | crates/sui-types/src/digests.rs:283-287 | writes exactly the inner digest's UpperHex text |
| `TransactionDigests.Default` | crates/sui-types/src/digests.rs:293-297 | the default transaction digest is all zero bytes |
| `TransactionDigests.Genesis` | crates/sui-types/src/digests.rs:306-311 | the genesis marker is all zero bytes |
| `TransactionDigests.GenesisIsDefaultIsZero` | crates/sui-types/src/digests.rs:293-311 | `default()`, `genesis()` and the constant `TransactionDigest::ZERO` (:300) are one value, `new([0; 32])` |
| `TransactionDigests.NewIntoInnerInverse` | crates/sui-types/src/digests.rs:346-356 | `new`/`From<[u8; 32]>` and `into_inner`/`From<TransactionDigest>` are mutual inverses |
| `TransactionDigests.New` | crates/sui-types/src/digests.rs:302-304 | `new` (and `From<[u8; 32]>`) builds a digest holding exactly the given bytes |
| `TransactionDigests.IntoInner` | crates/sui-types/src/digests.rs:321-327 | `inner`/`into_inner` (and `From<_> for [u8; 32]`) return the inner digest's bytes, from which `Digest::new` rebuilds the inner digest |
| `TransactionDigests.Display` | crates/sui-types/src/digests.rs:358-362 | Display delegates to the inner digest: text that decodes back to the bytes |
| `TransactionDigests.Base58Encode` | crates/sui-types/src/digests.rs:329-331 | `base58_encode` yields the Display text |
| `TransactionDigests.Cmp` | crates/sui-types/src/digests.rs:289-291 | the derived order is the byte order of the inner digest; Equal exactly on equal digests |
| `TransactionDigests.LowerHex` | crates/sui-types/src/digests.rs:370-374 | writes exactly the inner digest's LowerHex text |
| `TransactionDigests.UpperHex` | crates/sui-types/src/digests.rs:376-380 | writes exactly the inner digest's UpperHex text |
| `TransactionDigests.TryFrom` | crates/sui-types/src/digests.rs:382-391 | succeeds exactly on 32-byte slices, with `new` of exactly those bytes; otherwise `InvalidTransactionDigest` |
| `TransactionDigests.TryFromIntoInner` | crates/sui-types/src/digests.rs:382-391 | converting a digest's own bytes gives the digest back |
| `TransactionDigests.FromStr` | crates/sui-types/src/digests.rs:393-401 | decode failure is an error, a decoded length other than 32 panics, 32 bytes give `new` of those bytes |
| `TransactionDigests.FromStrDisplayRoundTrip` | crates/sui-types/src/digests.rs:358-401 | parsing the Display text of a transaction digest gives that digest back |
| `TransactionEffectsDigests.ZeroIsAllZero` | crates/sui-types/src/digests.rs:407 | the constant `TransactionEffectsDigest::ZERO` is `new([0; 32])`, all zero bytes |
| `TransactionEffectsDigests.NewIntoInnerInverse` | crates/sui-types/src/digests.rs:446-456 | `new`/`From<[u8; 32]>` and `into_inner`/`From<TransactionEffectsDigest>` are mutual inverses |
| `TransactionEffectsDigests.New` | crates/sui-types/src/digests.rs:409-411 | `new` (and `From<[u8; 32]>`) builds a digest holding exactly the given bytes |
| `TransactionEffectsDigests.IntoInner` | crates/sui-types/src/digests.rs:421-427 | `inner`/`into_inner` (and `From<_> for [u8; 32]`) return the inner digest's bytes, from which `Digest::new` rebuilds the inner digest |
| `TransactionEffectsDigests.Display` | crates/sui-types/src/digests.rs:458-462 | Display delegates to the inner digest: text that decodes back to the bytes |
| `TransactionEffectsDigests.Base58Encode` | crates/sui-types/src/digests.rs:429-431 | `base58_encode` yields the Display text |
| `TransactionEffectsDigests.Cmp` | crates/sui-types/src/digests.rs:403-404 | the derived order is the byte order of the inner digest; Equal exactly on equal digests |
| `TransactionEffectsDigests.LowerHex` | crates/sui-types/src/digests.rs:472-476 | writes exactly the inner digest's LowerHex text |
| `TransactionEffectsDigests.UpperHex` | crates/sui-types/src/digests.rs:478-482 | writes exactly the inner digest's UpperHex text |
| `TransactionEventsDigests.New` | crates/sui-types/src/digests.rs:491-493 | `new` wraps a digest holding exactly the given bytes |
| `TransactionEventsDigests.NewKeepsBytes` | crates/sui-types/src/digests.rs:488-493 | `new` wraps exactly the given bytes (distinct arrays give distinct digests), and the constant `TransactionEventsDigest::ZERO` (:489) is `new([0; 32])` |
| `TransactionEventsDigests.Cmp` | crates/sui-types/src/digests.rs:484-486 | the derived order is the byte order of the inner digest; Equal exactly on equal digests |
| `ObjectDigests.NewIntoInnerInverse` | crates/sui-types/src/digests.rs:567-577 | `new`/`From<[u8; 32]>` and `into_inner`/`From<ObjectDigest>` are mutual inverses |
| `ObjectDigests.New` | crates/sui-types/src/digests.rs:526-528 | `new` (and `From<[u8; 32]>`) builds a digest holding exactly the given bytes |
| `ObjectDigests.IntoInner` | crates/sui-types/src/digests.rs:538-544 | `inner`/`into_inner` (and `From<_> for [u8; 32]`) return the inner digest's bytes, from which `Digest::new` rebuilds the inner digest |
| `ObjectDigests.MarkerBytes` | crates/sui-types/src/digests.rs:513-524 | the constants: `MIN` is all 0, `MAX` all 255, `OBJECT_DIGEST_DELETED` all 99 and `OBJECT_DIGEST_WRAPPED` all 88, with `OBJECT_DIGEST_DELETED_BYTE_VAL` = 99 and `OBJECT_DIGEST_WRAPPED_BYTE_VAL` = 88 |
| `ObjectDigests.IsAlive` | crates/sui-types/src/digests.rs:546-548 | a digest is not alive exactly when all its bytes are 99 or all are 88 |
| `ObjectDigests.TombstonesAndBounds` | crates/sui-types/src/digests.rs:513-524 | the deleted and wrapped markers differ and are not alive; `MIN` and `MAX` are alive |
| `ObjectDigests.ExactlyTwoTombstones` | crates/sui-types/src/digests.rs:546-548 | the set of digests that are not alive is exactly the two markers |
| `ObjectDigests.BetweenMinAndMax` | crates/sui-types/src/digests.rs:513-514 | every object digest lies between `MIN` and `MAX` in the derived order |
| `ObjectDigests.Display` | crates/sui-types/src/digests.rs:579-583 | Display delegates to the inner digest: text that decodes back to the bytes |
| `ObjectDigests.Debug` | crates/sui-types/src/digests.rs:585-589 | Debug is `o#` followed by the Display text |
| `ObjectDigests.Base58Encode` | crates/sui-types/src/digests.rs:550-552 | `base58_encode` yields the Display text |
| `ObjectDigests.Cmp` | crates/sui-types/src/digests.rs:508-510 | the derived order is the byte order of the inner digest; Equal exactly on equal digests |
| `ObjectDigests.LowerHex` | crates/sui-types/src/digests.rs:591-595 | writes exactly the inner digest's LowerHex text |
| `ObjectDigests.UpperHex` | crates/sui-types/src/digests.rs:597-601 | writes exactly the inner digest's UpperHex text |
| `ObjectDigests.TryFrom` | crates/sui-types/src/digests.rs:603-612 | succeeds exactly on 32-byte slices, with `new` of exactly those bytes; otherwise the shared `InvalidTransactionDigest` |
| `ObjectDigests.TryFromIntoInner` | crates/sui-types/src/digests.rs:603-612 | converting a digest's own bytes gives the digest back |
| `ObjectDigests.FromStr` | crates/sui-types/src/digests.rs:614-622 | decode failure is an error, a decoded length other than 32 panics, 32 bytes give `new` of those bytes |
| `ObjectDigests.FromStrDisplayRoundTrip` | crates/sui-types/src/digests.rs:579-622 | parsing the Display text of an object digest gives that digest back |

## Left out

- `generate` and `random` (on `Digest` and on every wrapper that has them, `TransactionEventsDigest::random` included) depend on a cryptographic random source. With the generator's 32 output bytes as a parameter, they are `new` of those bytes.
- The Base58 codec itself (`fastcrypto::encoding::Base58`) is an external library. It is a `Codec` value passed in by the caller. What the digest code needs from it (decode inverts encode, encodings use the Bitcoin alphabet, other characters are rejected) is the `Lawful` predicate, required by the lemmas that use it.
- `Debug` of `CheckpointDigest`, `CheckpointContentsDigest`, `TransactionDigest`, `TransactionEffectsDigest` and `TransactionEventsDigest` uses `Formatter::debug_tuple`, whose layout belongs to the Rust standard library.
- Formatter failures are not modelled. `write!` propagates a `fmt::Error` only when the underlying writer fails, and the model builds the text as a value.
- `inner` (a borrow) and `into_inner` (a copy) give the same 32 bytes under value semantics, so one function, `IntoInner`, models both. The two `From` conversions are `New` and `IntoInner`.
- `From<fastcrypto::hash::Digest<32>>` wraps an external hash type; it is `new` of its bytes.
- Serde (`Readable<Base58, Bytes>`), `JsonSchema` and `Hash` derivations are serialization and hashing glue.
- The `AsRef` implementations only lend the bytes.
- The `anyhow::Error` that `from_str` returns is modelled as the decoder's message.
