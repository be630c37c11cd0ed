/** The SMBIOS structure decoder as the tables module writes it: the
    entry-point anchors and default entry points, the 4-byte structure
    header, the BIOS Information (type 0) and System Information (type 1)
    bodies, the string-table scan and the length bookkeeping that moves a
    cursor from one structure to the next. */
module Tables {
  import opened Bytes
  import opened Wrappers
  import opened StringTableFormat

  const ANCHOR21_LENGTH: nat := 4
  const ANCHOR30_LENGTH: nat := 5
  const INTERMEDIATE_ANCHOR_LENGTH: nat := 5
  const FORMATTED_AREA_SIZE: nat := 5

  const ANCHOR21: seq<u8> := [0x5f, 0x53, 0x4d, 0x5f]
  const ANCHOR30: seq<u8> := [0x5f, 0x53, 0x5d, 0x33, 0x5f]
  const INTERMEDIATE_ANCHOR: seq<u8> := [0x5f, 0x44, 0x4d, 0x49, 0x5f]

  /** bs are the ASCII codes of the characters of text, one byte each. */
  predicate Spells(bs: seq<u8>, text: string) {
    |bs| == |text| && forall i :: 0 <= i < |text| ==> bs[i] == text[i] as int
  }

  // ---------------------------------------------------------------------
  // Entry points

  /** The 32-bit ("2.1") entry point structure. */
  datatype Smbios21Entry = Smbios21Entry(
    AnchorString: seq<u8>,
    Checksum: u8,
    Length: u8,
    Major: u8,
    Minor: u8,
    MaximumSize: u16,
    Revision: u8,
    FormattedArea: seq<u8>,
    IntermediateAnchor: seq<u8>,
    IntermediateChecksum: u8,
    StructureTableLength: u16,
    StructureTableAddress: u32,
    NumOfStructures: u16,
    BcdRevision: u8)

  /** The 64-bit ("3.0") entry point structure. */
  datatype Smbios30Entry = Smbios30Entry(
    AnchorString: seq<u8>,
    Checksum: u8,
    Length: u8,
    Major: u8,
    Minor: u8,
    DocRev: u8,
    Revision: u8,
    Reserved: u8,
    StructureTableLength: u32,
    StructureTableAddress: u64)

  /** SMBios21Entry::new: anchors "_SM_" and "_DMI_", version 2.1, the
      version again in BCD, every other field zero. */
  function NewSmbios21Entry(): (e: Smbios21Entry)
    ensures Spells(e.AnchorString, "_SM_") && |e.AnchorString| == ANCHOR21_LENGTH
    ensures Spells(e.IntermediateAnchor, "_DMI_") && |e.IntermediateAnchor| == INTERMEDIATE_ANCHOR_LENGTH
    ensures e.Major == 2 && e.Minor == 1
    ensures e.BcdRevision == 16 * e.Major + e.Minor
    ensures |e.FormattedArea| == FORMATTED_AREA_SIZE
    ensures forall i :: 0 <= i < |e.FormattedArea| ==> e.FormattedArea[i] == 0
    ensures e.Checksum == 0 && e.Length == 0 && e.MaximumSize == 0 && e.Revision == 0
    ensures e.IntermediateChecksum == 0 && e.StructureTableLength == 0
    ensures e.StructureTableAddress == 0 && e.NumOfStructures == 0
  {
    Smbios21Entry(
      AnchorString := ANCHOR21,
      Checksum := 0,
      Length := 0,
      Major := 2,
      Minor := 1,
      MaximumSize := 0,
      Revision := 0,
      FormattedArea := seq(FORMATTED_AREA_SIZE, _ => 0),
      IntermediateAnchor := INTERMEDIATE_ANCHOR,
      IntermediateChecksum := 0,
      StructureTableLength := 0,
      StructureTableAddress := 0,
      NumOfStructures := 0,
      BcdRevision := 0x21)
  }

  /** SMBios30Entry::new: anchor ANCHOR30 (which spells "_S]3_", not
      "_SM3_"), version 3.0, every other field zero. */
  function NewSmbios30Entry(): (e: Smbios30Entry)
    ensures Spells(e.AnchorString, "_S]3_") && |e.AnchorString| == ANCHOR30_LENGTH
    ensures !Spells(e.AnchorString, "_SM3_")
    ensures e.Major == 3 && e.Minor == 0
    ensures e.Checksum == 0 && e.Length == 0 && e.DocRev == 0 && e.Revision == 0
    ensures e.Reserved == 0 && e.StructureTableLength == 0 && e.StructureTableAddress == 0
  {
    assert ANCHOR30[2] != "_SM3_"[2] as int;
    Smbios30Entry(
      AnchorString := ANCHOR30,
      Checksum := 0,
      Length := 0,
      Major := 3,
      Minor := 0,
      DocRev := 0,
      Revision := 0,
      Reserved := 0,
      StructureTableLength := 0,
      StructureTableAddress := 0)
  }

  // ---------------------------------------------------------------------
  // Structure header and bodies

  /** The header every structure starts with. */
  datatype Header = Header(Type: u8, Length: u8, Handle: u16)

  /** std::mem::size_of::<Header>() for the repr(C) struct: 1 + 1 + 2. */
  const HEADER_SIZE: nat := 4

  /** Header::from_le_bytes: refuses any input of at most HEADER_SIZE bytes;
      otherwise byte 0 is the type, byte 1 the length and bytes 2..4 the
      handle, low byte first. */
  function HeaderFromLeBytes(bytes: seq<u8>): (r: Option<Header>)
    ensures r.None? <==> |bytes| <= HEADER_SIZE
    ensures r.Some? ==> r.value.Type == bytes[0] && r.value.Length == bytes[1]
    ensures r.Some? ==> r.value.Handle % 256 == bytes[2] && r.value.Handle / 256 == bytes[3]
  {
    if |bytes| <= HEADER_SIZE then None
    else Some(Header(bytes[0], bytes[1], Le16(bytes[2..4])))
  }

  /** BIOS Information (type 0). */
  datatype BiosInformation = BiosInformation(
    Type: u8,
    Length: u8,
    Handle: u16,
    Vendor: u8,
    BiosVersion: u8,
    BiosStartingAddressSegment: u16,
    BiosReleaseDate: u8,
    BiosRomSize: u8,
    BiosCharacteristics: u64,
    BiosCharacteristicsExtensionBytes: u16,
    SystemBiosMajorRelease: u8,
    SystemBiosMinorRelease: u8,
    EmbeddedControllerFirmwareMajorRelease: u8,
    EmbeddedControllerFirmwareMinorRelease: u8,
    ExtendedBiosRomSize: u16)

  /** System Information (type 1). */
  datatype SystemInformation = SystemInformation(
    Type: u8,
    Length: u8,
    Handle: u16,
    Manufacturer: u8,
    ProductName: u8,
    Version: u8,
    SerialNumber: u8,
    Uuid: seq<u8>,
    WakeUpType: u8,
    SkuNumber: u8,
    Family: u8)

  /** A decoded structure. */
  datatype Table = Type0(bios: BiosInformation) | Type1(system: SystemInformation)

  function HeaderOf(t: Table): Header {
    match t
    case Type0(e) => Header(e.Type, e.Length, e.Handle)
    case Type1(e) => Header(e.Type, e.Length, e.Handle)
  }

  /** Table::new. The structure's type selects the layout; types 0 and 1
      are decoded field by field from fixed offsets, types from 5 on are
      refused. The header fields are carried into the record unchanged.
      Inputs the source does not handle are outside the domain: at most
      four bytes or types 2 to 4 (both reach `todo!()`), and inputs too
      short for the fixed offsets of the chosen layout (index panics). */
  function TableNew(data: seq<u8>): (r: Option<Table>)
    requires |data| > HEADER_SIZE
    requires !(2 <= data[0] <= 4)
    requires data[0] == 0 ==> |data| >= 25
    requires data[0] == 1 ==> |data| >= 27
    ensures r.None? <==> data[0] >= 5
    ensures r.Some? ==> HeaderFromLeBytes(data) == Some(HeaderOf(r.value))
    ensures r.Some? ==> (r.value.Type0? <==> data[0] == 0)
    ensures r.Some? && r.value.Type1? ==> |r.value.system.Uuid| == 16
  {
    var header := HeaderFromLeBytes(data).value;
    match header.Type
    case 0 =>
      Some(Type0(BiosInformation(
        Type := header.Type,
        Length := header.Length,
        Handle := header.Handle,
        Vendor := data[4],
        BiosVersion := data[5],
        BiosStartingAddressSegment := Le16(data[6..8]),
        BiosReleaseDate := data[8],
        BiosRomSize := data[9],
        BiosCharacteristics := Le64(data[10..18]),
        BiosCharacteristicsExtensionBytes := Le16(data[18..20]),
        SystemBiosMajorRelease := data[20],
        SystemBiosMinorRelease := data[21],
        EmbeddedControllerFirmwareMajorRelease := data[22],
        EmbeddedControllerFirmwareMinorRelease := data[23],
        ExtendedBiosRomSize := Le16(data[23..25]))))
    case 1 =>
      Some(Type1(SystemInformation(
        Type := header.Type,
        Length := header.Length,
        Handle := header.Handle,
        Manufacturer := data[4],
        ProductName := data[5],
        Version := data[6],
        SerialNumber := data[7],
        Uuid := data[8..][..16],
        WakeUpType := data[24],
        SkuNumber := data[25],
        Family := data[26])))
    case _ => None
  }

  // ---------------------------------------------------------------------
  // String table

  /** CStr::from_bytes_until_nul, as a position: the first NUL at or after
      `from`, if there is one. */
  function FindNul(data: seq<u8>, from: nat): (r: Option<nat>)
    requires from <= |data|
    ensures r.Some? ==> from <= r.value < |data| && data[r.value] == NUL
    ensures r.Some? ==> forall i :: from <= i < r.value ==> data[i] != NUL
    ensures r.None? ==> forall i :: from <= i < |data| ==> data[i] != NUL
    decreases |data| - from
  {
    if from == |data| then None
    else if data[from] == NUL then Some(from)
    else FindNul(data, from + 1)
  }

  /** Table::build_string_table. A cursor walks the bytes after the
      formatted area: it stops on two adjacent NULs, steps over a single
      NUL, and otherwise takes the bytes up to the next NUL as one string.
      The result is None exactly when the bytes hold no double NUL; otherwise
      it is the one list of strings whose table the bytes start with (after
      the one leading NUL the cursor steps over, see LeadingSkip).
      The source indexes data[curr_pos] and data[curr_pos + 1] before its
      bounds check, so empty input and input that ends in a lone NUL
      without any double NUL before it panic; those are excluded. */
  method BuildStringTable(data: seq<u8>) returns (r: Option<seq<seq<u8>>>)
    requires |data| > 0
    requires HasDoubleNul(data) || data[|data| - 1] != NUL
    ensures r.Some? <==> HasDoubleNul(data)
    ensures r.Some? ==> ValidStrings(r.value) && Decodes(data, r.value)
  {
    var strings: seq<seq<u8>> := [];
    var currPos: nat := 0;
    ghost var lead := LeadingSkip(data);
    while true
      invariant currPos < |data|
      invariant strings == [] ==> currPos == 0
      invariant strings != [] ==> lead <= currPos && data[currPos] == NUL
      invariant strings != [] ==> data[lead..currPos + 1] == Terminated(strings)
      invariant ValidStrings(strings)
      invariant forall i :: 0 <= i < currPos ==> !(data[i] == NUL && data[i + 1] == NUL)
      decreases |data| - currPos
    {
      NulBeforeEnd(data, currPos);
      if (data[currPos] == NUL && data[currPos + 1] == NUL) || currPos >= |data| {
        break;
      }
      ghost var wasPos := currPos;
      if data[currPos] == NUL {
        currPos := currPos + 1;
      }
      match FindNul(data, currPos) {
        case None =>
          NoTerminatorAhead(data, wasPos, currPos);
          return None;
        case Some(nul) =>
          var s := data[currPos..nul];
          ScannedString(data, lead, wasPos, currPos, nul, strings);
          strings := strings + [s];
          currPos := currPos + |s|;
      }
    }
    ScanStopped(data, lead, currPos, strings);
    r := Some(strings);
  }

  /** A NUL the scan reaches is never the last byte: by the precondition of
      BuildStringTable a double NUL would lie before it, and the scan has
      passed none. */
  lemma NulBeforeEnd(data: seq<u8>, pos: nat)
    requires pos < |data|
    requires HasDoubleNul(data) || data[|data| - 1] != NUL
    requires forall i :: 0 <= i < pos ==> !(data[i] == NUL && data[i + 1] == NUL)
    ensures data[pos] == NUL ==> pos + 1 < |data|
  {
  }

  /** The scan gave up at `from` (after starting the step at `wasPos`): no
      NUL lies at or after `from`, so the bytes hold no double NUL. */
  lemma NoTerminatorAhead(data: seq<u8>, wasPos: nat, from: nat)
    requires wasPos <= from <= wasPos + 1 && wasPos < |data| && from <= |data|
    requires forall i :: 0 <= i < wasPos ==> !(data[i] == NUL && data[i + 1] == NUL)
    requires from == wasPos + 1 ==> from < |data| && data[from] != NUL
    requires forall i :: from <= i < |data| ==> data[i] != NUL
    ensures !HasDoubleNul(data)
  {
    forall i | 0 <= i < |data| - 1 ensures !(data[i] == NUL && data[i + 1] == NUL) {
      if i >= from {
        assert data[i] != NUL;
      } else if i >= wasPos {
        assert data[i + 1] != NUL;
      }
    }
  }

  /** One step of the scan: the string between `from` and the NUL at `nul`
      extends the decoded prefix by that string and its NUL. */
  lemma ScannedString(data: seq<u8>, lead: nat, wasPos: nat, from: nat, nul: nat, strings: seq<seq<u8>>)
    requires lead == LeadingSkip(data)
    requires wasPos <= from < nul < |data| && data[nul] == NUL
    requires data[from] != NUL
    requires forall i :: from <= i < nul ==> data[i] != NUL
    requires strings == [] ==> wasPos == 0 && from == lead
    requires strings != [] ==> from == wasPos + 1 && lead <= wasPos
    requires strings != [] ==> data[lead..wasPos + 1] == Terminated(strings)
    requires ValidStrings(strings)
    requires forall i :: 0 <= i < wasPos ==> !(data[i] == NUL && data[i + 1] == NUL)
    requires from == wasPos + 1 ==> data[wasPos + 1] != NUL
    ensures ValidString(data[from..nul])
    ensures ValidStrings(strings + [data[from..nul]])
    ensures lead <= nul && data[lead..nul + 1] == Terminated(strings + [data[from..nul]])
    ensures forall i :: 0 <= i < nul ==> !(data[i] == NUL && data[i + 1] == NUL)
  {
    var s := data[from..nul];
    NulFreeSlice(data, from, nul);
    TerminatedSnoc(strings, s);
    if strings == [] {
      assert data[lead..nul + 1] == s + [NUL];
    } else {
      assert data[lead..nul + 1] == data[lead..wasPos + 1] + s + [NUL];
    }
    forall i | 0 <= i < |strings + [s]| ensures ValidString((strings + [s])[i]) {
      if i < |strings| { assert (strings + [s])[i] == strings[i]; }
    }
    forall i | 0 <= i < nul ensures !(data[i] == NUL && data[i + 1] == NUL) {
      if i >= from {
        assert data[i] != NUL;
      } else if i >= wasPos {
        assert data[i + 1] != NUL;
      }
    }
  }

  /** The bytes from a non-NUL byte up to the next NUL make a valid string. */
  lemma NulFreeSlice(data: seq<u8>, from: nat, nul: nat)
    requires from < nul < |data| && data[from] != NUL
    requires forall i :: from <= i < nul ==> data[i] != NUL
    ensures ValidString(data[from..nul])
  {
    var s := data[from..nul];
    forall i | 0 <= i < |s| ensures s[i] != NUL { assert s[i] == data[from + i]; }
  }

  /** The scan stopped on two adjacent NULs: the bytes read so far form the
      table that holds the strings collected. */
  lemma ScanStopped(data: seq<u8>, lead: nat, pos: nat, strings: seq<seq<u8>>)
    requires lead == LeadingSkip(data)
    requires pos + 1 < |data| && data[pos] == NUL && data[pos + 1] == NUL
    requires strings == [] ==> pos == 0
    requires strings != [] ==> lead <= pos && data[lead..pos + 1] == Terminated(strings)
    requires ValidStrings(strings)
    ensures HasDoubleNul(data)
    ensures Decodes(data, strings)
  {
    if strings == [] {
      assert data[lead..][..2] == Encode(strings);
    } else {
      assert data[lead..][..pos + 2 - lead] == Terminated(strings) + [NUL];
    }
  }

  // ---------------------------------------------------------------------
  // Length bookkeeping

  /** Table::len: how far into the structure its string table starts. */
  function Len(t: Table): (n: nat)
    ensures n == HeaderOf(t).Length
  {
    match t
    case Type0(e) => e.Length
    case Type1(e) => e.Length
  }

  /** The `fold` in total_len: adds the strings' byte lengths to acc. */
  function FoldLengths(acc: nat, ss: seq<seq<u8>>): (n: nat)
    ensures n == acc + SizeOfStrings(ss)
    decreases |ss|
  {
    if ss == [] then acc else FoldLengths(acc + |ss[0]|, ss[1..])
  }

  /** Table::total_len: the header length, each string with its NUL, and
      two for the terminator, less one. For a non-empty string table that is
      the structure's whole size, formatted area and table; for an empty
      one it is one byte short of the two NULs the table occupies. */
  function TotalLen(t: Table, stringTable: seq<seq<u8>>): (n: nat)
    ensures stringTable != [] ==> n == Len(t) + |Encode(stringTable)|
    ensures stringTable == [] ==> n == Len(t) + |Encode(stringTable)| - 1
  {
    EncodeSize(stringTable);
    var stringTableLen := FoldLengths(0, stringTable) + 1 * |stringTable| + 2;
    stringTableLen + Len(t) - 1
  }
}
