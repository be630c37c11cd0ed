# SMBIOS structure decoder

A Dafny model of the structure decoder of an SMBIOS table parser
(`src/parser/tables.rs`). The decoder reads parts of a System Management BIOS
structure table as defined by DMTF DSP0134:

- the default values of the 32-bit ("2.1") and 64-bit ("3.0") entry points, and their anchors;
- the 4-byte structure header: type, length and a little-endian handle;
- the formatted area of BIOS Information (type 0) and System Information (type 1);
- the string table after a formatted area: NUL-terminated strings, closed by a second NUL;
- the length bookkeeping that moves a cursor from one structure to the next.

Files:

- `bytes.dfy` (module `Bytes`): the unsigned integer types and little-endian decoding.
- `wrappers.dfy` (module `Wrappers`): `Option`.
- `string_format.dfy` (module `StringTableFormat`): the string-table layout of
  DSP0134 section 6.1.3 as an encoder `Encode`. It defines `Decodes(data, ss)`:
  after the scanner's leading skip, data starts with the table that holds ss.
  It also holds the uniqueness and round-trip lemmas.
- `tables.dfy` (module `Tables`): the code as written. This covers the anchors,
  `SMBios21Entry::new`, `SMBios30Entry::new`, `Header::from_le_bytes`, `Table::new`,
  `Table::build_string_table`, `Table::len` and `Table::total_len`.
  `build_string_table` is a method with the source's loop over a moving cursor.
  The rest are functions.
- `dsp0134.dfy` (module `Dsp0134`): encoders for the DSP0134 layouts of the header
  (section 6.1.2), BIOS Information (section 7.1) and System Information
  (section 7.2). It holds the round-trip lemmas of the decoders against those
  encoders, the lemmas that show where the code departs from DSP0134, and the
  corrected members.

The `build_string_table` loop follows the code. The code does not skip a NUL
unconditionally. It stops at the first pair of adjacent NULs it reaches, and it
steps over a lone NUL before taking the next string. So input that starts
`00 xx` with `xx` not NUL is read from its second byte (`LeadingSkip`). The
model keeps that behaviour.

## Model

| member | source | states |
|---|---|---|
| `Tables.NewSmbios21Entry` | src/parser/tables.rs:33-51 | The anchor spells "_SM_" and the intermediate anchor spells "_DMI_". The version is 2.1 and `BcdRevision` is that version in BCD (0x21). The formatted area is five zero bytes and every other field is zero. |
| `Tables.NewSmbios30Entry` | src/parser/tables.rs:83-97 | The anchor is ANCHOR30, which spells "_S]3_" and not "_SM3_". The version is 3.0 and every other field is zero. |
| `Tables.HeaderFromLeBytes` | src/parser/tables.rs:123-138 | Returns None exactly when the input has at most 4 bytes. Otherwise Type is byte 0, Length is byte 1, and Handle has byte 2 as its low byte and byte 3 as its high byte. |
| `Tables.TableNew` | src/parser/tables.rs:223-278 | Returns None exactly for types 5 and above. A result is Type0 exactly for type 0. The type, length and handle are those of the header, and the UUID has 16 bytes. The domain is what the code survives: more than 4 bytes, type not 2-4, at least 25 bytes for type 0 and 27 for type 1. |
| `Tables.FindNul` | src/parser/tables.rs:293-298 | `CStr::from_bytes_until_nul` as a position: the first NUL at or after the cursor, or None when no NUL follows. |
| `Tables.BuildStringTable` | src/parser/tables.rs:280-307 | Returns None exactly when the bytes hold no two adjacent NULs. Otherwise every returned string is non-empty and NUL-free. After the single leading NUL the scan steps over (`LeadingSkip`), the bytes start with the string table of the returned list. `DecodesUnique` makes that list unique. Panicking inputs are excluded: empty input, and a trailing lone NUL with no double NUL. |
| `Tables.Len` | src/parser/tables.rs:309-315 | The advance to the string table is the header's Length. |
| `Tables.FoldLengths` | src/parser/tables.rs:325-326 | The fold adds the byte lengths of all strings to its start value. |
| `Tables.TotalLen` | src/parser/tables.rs:317-328 | For a non-empty string list the result is Len plus the size of the encoded string table. For an empty list it is one byte less. |
| `Bytes.Le16` | src/parser/tables.rs:132-136 | `u16::from_le_bytes`: the result's low byte is the first byte and its high byte is the second. |
| `Bytes.Le64` | src/parser/tables.rs:241-243 | `u64::from_le_bytes`: the result's 8-byte little-endian form is the input. |
| `Bytes.LeValueOfLeBytes` | src/parser/tables.rs:234-246 | Writing a value that fits in n bytes little-endian and reading it back gives the value. |
| `Bytes.LeBytesOfLeValue` | src/parser/tables.rs:234-246 | Reading bytes little-endian and writing the value back gives the same bytes. |
| `StringTableFormat.EncodeSize` | src/parser/tables.rs:317-328 | The string table holding ss has the sum of (string length + 1) plus 1 bytes. With no strings it has 2 bytes. |
| `StringTableFormat.EncodeTerminatorFirst` | src/parser/tables.rs:285-287 | For valid strings, the closing double NUL is the first pair of adjacent NULs in the table, so the scan stops exactly there. |
| `StringTableFormat.DecodesUnique` | src/parser/tables.rs:280-307 | At most one list of strings decodes from given bytes, so the result of `build_string_table` is determined. |
| `StringTableFormat.EncodeDecodes` | src/parser/tables.rs:280-307 | The table of any valid strings, followed by any bytes, decodes to those strings and contains the double NUL that ends the scan. |
| `StringTableFormat.RoundTrip` | src/parser/tables.rs:284-306 | Round trip: bytes that start with the table of valid strings ss decode to ss and to nothing else. Bytes starting `00 00` decode to the empty list. |
| `Dsp0134.HeaderRoundTrip` | src/parser/tables.rs:124-137 | `Header::from_le_bytes` recovers any header from its DSP0134 bytes when at least one more byte follows. |
| `Dsp0134.HeaderOnlyRefused` | src/parser/tables.rs:125 | As written, a complete 4-byte header with nothing after it is refused. |
| `Dsp0134.DecodeHeader` | src/parser/tables.rs:124-137 | The corrected header decoder: None exactly below 4 bytes. Otherwise the header it returns encodes back to the first 4 bytes. |
| `Dsp0134.DecodeHeaderRoundTrip` | src/parser/tables.rs:124-137 | The corrected decoder recovers every header, with or without bytes after it. It agrees with `Header::from_le_bytes` wherever that one accepts. |
| `Dsp0134.BiosInformationAsWritten` | src/parser/tables.rs:227-254 | `Table::new` recovers every field of a BIOS Information structure except ExtendedBIOSROMSize. That field comes back as EC minor release + 256 * (low byte of the real field). |
| `Dsp0134.ExtendedRomSizeCounterexample` | src/parser/tables.rs:250-253 | EC minor release 5 and extended ROM size 0x0010 decode to an extended ROM size of 0x1005, so the round trip fails. |
| `Dsp0134.DecodeBiosInformation` | src/parser/tables.rs:250-253 | The corrected type 0 decoder reads ExtendedBIOSROMSize little-endian from offset 18h (bytes 24..26). It agrees with `Table::new` on every other field. |
| `Dsp0134.BiosInformationRoundTrip` | src/parser/tables.rs:227-254 | The corrected decoder recovers every BIOS Information structure from its DSP0134 bytes. |
| `Dsp0134.SystemInformationRoundTrip` | src/parser/tables.rs:256-269 | `Table::new` recovers every field of a System Information structure from its DSP0134 bytes. These are the string indices at 4..8, the UUID at 8..24, and WakeUpType, SKUNumber and Family at 24, 25 and 26. |
| `Dsp0134.Anchor30Misspelled` | src/parser/tables.rs:8 | ANCHOR30 differs from "_SM3_" only in its third byte: 0x5d where DSP0134 has 0x4d. |
| `Dsp0134.NewSmbios30EntryCorrected` | src/parser/tables.rs:83-97 | The corrected 3.0 entry point's anchor spells "_SM3_". Every other field is as `SMBios30Entry::new` sets it. |
| `Dsp0134.TotalLenCorrected` | src/parser/tables.rs:317-328 | The corrected advance is Len plus the size of the string table for every string list, including the empty one. |
| `Dsp0134.EmptyTableAdvanceShort` | src/parser/tables.rs:326-327 | As written, for a structure without strings `total_len` is one byte short of the corrected advance. |
| `Dsp0134.StructureAdvance` | src/parser/parser.rs:36-45 | Let the bytes from Len on be the table of ss followed by next. Then the scan finds exactly ss, and the corrected advance lands on next. `total_len` lands on next when ss is non-empty. When ss is empty it lands on the last NUL of the table. |
| `Dsp0134.SystemInformationExample` | src/parser/tables.rs:317-328 | Take a type 1 structure of length 27 with strings "Acme" and "Widget-9000", followed by an end-of-table structure. It decodes back and its strings scan back. `total_len` is 45 and lands on the end-of-table header. |

## Left out

- The entry-point conversions `From<&[u8]>` and `TryFrom<WrapTable<T>>` are `todo!()` in the code, so there is nothing to model.
- `Table::new` for types 2-4 and for inputs of at most 4 bytes reaches `todo!()`. The requires of `TableNew` excludes these inputs.
- The `Type4` (Processor Information) variant (src/parser/tables.rs:182-212) is never built: `Table::new` has no arm that returns it. The model's `Table` has only the type 0 and type 1 variants, so `len`'s `Type4` arm is absent.
- Tables.TableNew: its own contract states the type selection and that the header passes through unchanged. The offset of each body field is stated by `BiosInformationAsWritten` and `SystemInformationRoundTrip` against the DSP0134 encoders. Those lemmas cover type 0 input of 26 bytes or more and type 1 input of 27 bytes or more. For the 25-byte type 0 input that `Table::new` also accepts, only the type, length and handle are stated.
- `Table::new` reads every field from the buffer it is given, whatever the header's Length says. A short (older) formatted area therefore takes its later fields from the string-table bytes. The model does the same and does not add a check the code lacks.
- Tables.BuildStringTable: it returns byte strings. The UTF-8 check `to_str().expect(...)` is not modelled, because a panic on invalid UTF-8 has no counterpart over bytes.
- Tables.BuildStringTable: it takes only the bytes. The code's `&self` receiver is never read.
- `println!` debug output is left out, because it does not affect any result.
- The unused `WrapTable` and `SMBiosTableEntry` types are left out.
- The `repr(C)` memory layout of the entry-point structs is left out. The model gives their fields, not their placement in memory.
- Integers are unbounded. `wrapping_add` on the cursor and the `usize` sums in `total_len` cannot wrap for a buffer that fits in memory.
- The parser test in `src/parser/parser.rs` obtains the table through the Windows `GetSystemFirmwareTable` call. That call is not modelled. Only the decode / scan / advance composition it shows is, as `StructureAdvance`.

## Findings

| source | as written | input that shows it | evidently intended | confidence | as-written member | corrected member |
|---|---|---|---|---|---|---|
| src/parser/tables.rs:8 | ANCHOR30 is `5f 53 5d 33 5f` ("_S]3_") | any 3.0 entry point, whose anchor is "_SM3_" | `5f 53 4d 33 5f` ("_SM3_", DSP0134 section 5.2.2) | high; not executed | `Dsp0134.Anchor30Misspelled` | `Dsp0134.NewSmbios30EntryCorrected` |
| src/parser/tables.rs:250-253 | ExtendedBIOSROMSize read from bytes 23..25 | type 0 structure with EC minor release 5 and extended ROM size 0x0010: decodes as 0x1005 | bytes 24..26 (offset 18h, DSP0134 section 7.1) | high; not executed | `Dsp0134.ExtendedRomSizeCounterexample` | `Dsp0134.BiosInformationRoundTrip` |
| src/parser/tables.rs:326-327 | total_len = Length + Σ(len+1) + 2 - 1, i.e. Length + 1 for no strings | type 1 structure of length 27 with no strings: advance 28, next structure at 29 | Length + 2 for an empty table (its two NULs, DSP0134 section 6.1.3) | high; not executed | `Dsp0134.EmptyTableAdvanceShort` | `Dsp0134.TotalLenCorrected` |
| src/parser/tables.rs:125 | header refused when input has `<= 4` bytes | the 4 bytes `7f 04 00 01` of an end-of-table header, with nothing after it | refuse only below 4 bytes, since all 4 header bytes are present | medium; not executed | `Dsp0134.HeaderOnlyRefused` | `Dsp0134.DecodeHeaderRoundTrip` |
