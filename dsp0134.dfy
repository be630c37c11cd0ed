/** The layouts DSP0134 gives for the structures the decoder reads: the
    structure header (section 6.1.2), BIOS Information (section 7.1, 26
    bytes from version 3.1 of the standard on) and System Information (section
    7.2, 27 bytes), written as encoders. Decoding what they write shows
    which fields the tables module recovers, and where it departs from the
    standard; next to each departure stands the member corrected to it. */
module Dsp0134 {
  import opened Bytes
  import opened Wrappers
  import opened StringTableFormat
  import opened Tables

  lemma Le16OfLeBytes(x: u16)
    ensures Le16(LeBytes(x, 2)) == x
  {
    var r := Le16(LeBytes(x, 2));
    assert LeBytes(x, 2) == [x % 256, (x / 256) % 256];
  }

  lemma Le64OfLeBytes(x: u64)
    ensures Le64(LeBytes(x, 8)) == x
  {
    var r := Le64(LeBytes(x, 8));
    Pow256Widths();
    LeValueOfLeBytes(r, 8);
    LeValueOfLeBytes(x, 8);
  }

  // ---------------------------------------------------------------------
  // Structure header (section 6.1.2)

  /** Type, length, then the handle low byte first. */
  function EncodeHeader(h: Header): (bs: seq<u8>)
    ensures |bs| == HEADER_SIZE
  {
    [h.Type, h.Length] + LeBytes(h.Handle, 2)
  }

  /** Header::from_le_bytes recovers the header from its bytes when at least
      one more byte follows them. */
  lemma {:induction false} HeaderRoundTrip(h: Header, rest: seq<u8>)
    requires rest != []
    ensures HeaderFromLeBytes(EncodeHeader(h) + rest) == Some(h)
  {
    var data := EncodeHeader(h) + rest;
    assert data[2..4] == LeBytes(h.Handle, 2);
    Le16OfLeBytes(h.Handle);
  }

  /** As written: a header that is all the input there is gets refused,
      although all four of its bytes are present. */
  lemma HeaderOnlyRefused(h: Header)
    ensures HeaderFromLeBytes(EncodeHeader(h)) == None
  {
  }

  /** The header decoder corrected to "at least four bytes". */
  function DecodeHeader(bytes: seq<u8>): (r: Option<Header>)
    ensures r.None? <==> |bytes| < HEADER_SIZE
    ensures r.Some? ==> EncodeHeader(r.value) == bytes[..HEADER_SIZE]
  {
    if |bytes| < HEADER_SIZE then None
    else
      LeBytesOfLeValue(bytes[2..4]);
      Some(Header(bytes[0], bytes[1], Le16(bytes[2..4])))
  }

  /** The corrected decoder recovers every header, with or without bytes
      after it, and agrees with Header::from_le_bytes wherever that one
      accepts. */
  lemma {:induction false} DecodeHeaderRoundTrip(h: Header, rest: seq<u8>)
    ensures DecodeHeader(EncodeHeader(h) + rest) == Some(h)
    ensures rest != [] ==> HeaderFromLeBytes(EncodeHeader(h) + rest) == DecodeHeader(EncodeHeader(h) + rest)
  {
    var data := EncodeHeader(h) + rest;
    assert data[2..4] == LeBytes(h.Handle, 2);
    Le16OfLeBytes(h.Handle);
    if rest != [] {
      HeaderRoundTrip(h, rest);
    }
  }

  // ---------------------------------------------------------------------
  // BIOS Information (section 7.1)

  /** The 26 bytes of a BIOS Information structure's formatted area:
      Extended BIOS ROM Size is the word at offset 18h. */
  function EncodeBiosInformation(b: BiosInformation): (bs: seq<u8>)
    ensures |bs| == 26
  {
    [b.Type, b.Length] + LeBytes(b.Handle, 2)
    + [b.Vendor, b.BiosVersion] + LeBytes(b.BiosStartingAddressSegment, 2)
    + [b.BiosReleaseDate, b.BiosRomSize]
    + LeBytes(b.BiosCharacteristics, 8)
    + LeBytes(b.BiosCharacteristicsExtensionBytes, 2)
    + [b.SystemBiosMajorRelease, b.SystemBiosMinorRelease,
       b.EmbeddedControllerFirmwareMajorRelease, b.EmbeddedControllerFirmwareMinorRelease]
    + LeBytes(b.ExtendedBiosRomSize, 2)
  }

  /** Where each field of a BIOS Information structure lies in its bytes. */
  lemma BiosInformationBytes(b: BiosInformation, rest: seq<u8>)
    ensures var d := EncodeBiosInformation(b) + rest;
      && d[0] == b.Type && d[1] == b.Length && d[2..4] == LeBytes(b.Handle, 2)
      && d[4] == b.Vendor && d[5] == b.BiosVersion
      && d[6..8] == LeBytes(b.BiosStartingAddressSegment, 2)
      && d[8] == b.BiosReleaseDate && d[9] == b.BiosRomSize
      && d[10..18] == LeBytes(b.BiosCharacteristics, 8)
      && d[18..20] == LeBytes(b.BiosCharacteristicsExtensionBytes, 2)
      && d[20] == b.SystemBiosMajorRelease && d[21] == b.SystemBiosMinorRelease
      && d[22] == b.EmbeddedControllerFirmwareMajorRelease
      && d[23] == b.EmbeddedControllerFirmwareMinorRelease
      && d[24..26] == LeBytes(b.ExtendedBiosRomSize, 2)
  {
  }

  /** As written: Table::new recovers every field of a BIOS Information
      structure except Extended BIOS ROM Size, which it reads one byte too
      early: its low byte is the embedded controller's minor release and its
      high byte the real field's low byte. */
  lemma BiosInformationAsWritten(b: BiosInformation, rest: seq<u8>)
    requires b.Type == 0
    ensures var d := EncodeBiosInformation(b) + rest;
      TableNew(d) == Some(Type0(b.(ExtendedBiosRomSize :=
        b.EmbeddedControllerFirmwareMinorRelease + 256 * (b.ExtendedBiosRomSize % 256))))
  {
    var d := EncodeBiosInformation(b) + rest;
    BiosInformationBytes(b, rest);
    Le16OfLeBytes(b.Handle);
    Le16OfLeBytes(b.BiosStartingAddressSegment);
    Le64OfLeBytes(b.BiosCharacteristics);
    Le16OfLeBytes(b.BiosCharacteristicsExtensionBytes);
    var ext := Le16(d[23..25]);
    assert d[23..25] == [d[23], d[24]];
    assert ext == b.EmbeddedControllerFirmwareMinorRelease + 256 * (b.ExtendedBiosRomSize % 256);
  }

  /** As written, on one input: EC minor release 5 and an extended ROM size
      of 16 (MB) come back as an extended ROM size of 0x1005. */
  lemma ExtendedRomSizeCounterexample(b: BiosInformation)
    requires b.Type == 0 && b.EmbeddedControllerFirmwareMinorRelease == 5
    requires b.ExtendedBiosRomSize == 0x0010
    ensures TableNew(EncodeBiosInformation(b)).value.bios.ExtendedBiosRomSize == 0x1005
    ensures TableNew(EncodeBiosInformation(b)) != Some(Type0(b))
  {
    BiosInformationAsWritten(b, []);
    assert EncodeBiosInformation(b) + [] == EncodeBiosInformation(b);
  }

  /** The BIOS Information decoder corrected to read Extended BIOS ROM Size
      at offset 18h; every other field as Table::new reads it. */
  function DecodeBiosInformation(data: seq<u8>): (b: BiosInformation)
    requires |data| >= 26 && data[0] == 0
    ensures b.ExtendedBiosRomSize == Le16(data[24..26])
    ensures TableNew(data) == Some(Type0(b.(ExtendedBiosRomSize := Le16(data[23..25]))))
  {
    TableNew(data).value.bios.(ExtendedBiosRomSize := Le16(data[24..26]))
  }

  /** The corrected decoder recovers every BIOS Information structure. */
  lemma BiosInformationRoundTrip(b: BiosInformation, rest: seq<u8>)
    requires b.Type == 0
    ensures DecodeBiosInformation(EncodeBiosInformation(b) + rest) == b
  {
    var d := EncodeBiosInformation(b) + rest;
    BiosInformationAsWritten(b, rest);
    BiosInformationBytes(b, rest);
    Le16OfLeBytes(b.ExtendedBiosRomSize);
  }

  // ---------------------------------------------------------------------
  // System Information (section 7.2)

  /** The 27 bytes of a System Information structure's formatted area. */
  function EncodeSystemInformation(s: SystemInformation): (bs: seq<u8>)
    requires |s.Uuid| == 16
    ensures |bs| == 27
  {
    [s.Type, s.Length] + LeBytes(s.Handle, 2)
    + [s.Manufacturer, s.ProductName, s.Version, s.SerialNumber]
    + s.Uuid
    + [s.WakeUpType, s.SkuNumber, s.Family]
  }

  /** Table::new recovers every field of a System Information structure. */
  lemma SystemInformationRoundTrip(s: SystemInformation, rest: seq<u8>)
    requires s.Type == 1 && |s.Uuid| == 16
    ensures TableNew(EncodeSystemInformation(s) + rest) == Some(Type1(s))
  {
    var d := EncodeSystemInformation(s) + rest;
    assert d[2..4] == LeBytes(s.Handle, 2);
    Le16OfLeBytes(s.Handle);
    assert d[8..][..16] == s.Uuid;
  }

  // ---------------------------------------------------------------------
  // Entry point anchor (section 5.2.2)

  /** As written: ANCHOR30 differs from "_SM3_" in its third byte only,
      0x5d (']') where the standard has 0x4d ('M'). */
  lemma Anchor30Misspelled()
    ensures |ANCHOR30| == |"_SM3_"|
    ensures ANCHOR30[2] == 0x5d && "_SM3_"[2] as int == 0x4d
    ensures forall i :: 0 <= i < |ANCHOR30| && i != 2 ==> ANCHOR30[i] == "_SM3_"[i] as int
  {
  }

  /** SMBios30Entry::new with the anchor the standard defines. */
  function NewSmbios30EntryCorrected(): (e: Smbios30Entry)
    ensures Spells(e.AnchorString, "_SM3_")
    ensures e == NewSmbios30Entry().(AnchorString := e.AnchorString)
  {
    NewSmbios30Entry().(AnchorString := [0x5f, 0x53, 0x4d, 0x33, 0x5f])
  }

  // ---------------------------------------------------------------------
  // Advancing to the next structure

  /** The advance corrected to count both NULs of an empty string table:
      the formatted area and the string table, whatever the strings. */
  function TotalLenCorrected(t: Table, stringTable: seq<seq<u8>>): (n: nat)
    ensures n == Len(t) + |Encode(stringTable)|
  {
    if stringTable == [] then Len(t) + 2 else TotalLen(t, stringTable)
  }

  /** As written: after a structure without strings, total_len stops on the
      second NUL of the table instead of the byte after it. */
  lemma EmptyTableAdvanceShort(t: Table)
    ensures TotalLen(t, []) + 1 == TotalLenCorrected(t, [])
  {
  }

  lemma DropTwice(data: seq<u8>, n: nat, m: nat)
    requires n + m <= |data|
    ensures data[n..][m..] == data[n + m..]
  {
  }

  /** Scan and advance, as the caller in the parser test composes them with
      Table::new (whose result has Len equal to the header's length byte):
      when the bytes from Len(t) on hold the string table of ss followed by
      next, build_string_table finds exactly ss there, and the corrected
      advance lands on next; total_len lands there too when there is at
      least one string, and one byte early otherwise. */
  lemma StructureAdvance(data: seq<u8>, t: Table, ss: seq<seq<u8>>, next: seq<u8>)
    requires Len(t) <= |data| && ValidStrings(ss)
    requires data[Len(t)..] == Encode(ss) + next
    ensures HasDoubleNul(data[Len(t)..]) && Decodes(data[Len(t)..], ss)
    ensures forall r :: Decodes(data[Len(t)..], r) ==> r == ss
    ensures data[TotalLenCorrected(t, ss)..] == next
    ensures ss != [] ==> data[TotalLen(t, ss)..] == next
    ensures ss == [] ==> data[TotalLen(t, ss)..] == [NUL] + next
  {
    ScanFindsStrings(data[Len(t)..], ss, next);
    AdvanceLands(data, t, ss, next);
  }

  lemma ScanFindsStrings(tail: seq<u8>, ss: seq<seq<u8>>, next: seq<u8>)
    requires ValidStrings(ss) && tail == Encode(ss) + next
    ensures HasDoubleNul(tail) && Decodes(tail, ss)
    ensures forall r :: Decodes(tail, r) ==> r == ss
  {
    EncodeDecodes(ss, next);
    forall r | Decodes(tail, r) ensures r == ss {
      RoundTrip(ss, next, r);
    }
  }

  lemma AdvanceLands(data: seq<u8>, t: Table, ss: seq<seq<u8>>, next: seq<u8>)
    requires Len(t) <= |data|
    requires data[Len(t)..] == Encode(ss) + next
    ensures data[TotalLenCorrected(t, ss)..] == next
    ensures ss != [] ==> data[TotalLen(t, ss)..] == next
    ensures ss == [] ==> data[TotalLen(t, ss)..] == [NUL] + next
  {
    var n, m := Len(t), |Encode(ss)|;
    assert TotalLenCorrected(t, ss) == n + m;
    DropTwice(data, n, m);
    assert (Encode(ss) + next)[m..] == next;
    if ss == [] {
      assert TotalLen(t, ss) == n + 1;
      DropTwice(data, n, 1);
      assert (Encode(ss) + next)[1..] == [NUL] + next;
    } else {
      assert TotalLen(t, ss) == n + m;
    }
  }

  /** The strings "Acme" and "Widget-9000" as bytes. */
  function ExampleStrings(): (ss: seq<seq<u8>>)
    ensures ValidStrings(ss) && |ss| == 2
    ensures Spells(ss[0], "Acme") && Spells(ss[1], "Widget-9000")
  {
    [[0x41, 0x63, 0x6d, 0x65],
     [0x57, 0x69, 0x64, 0x67, 0x65, 0x74, 0x2d, 0x39, 0x30, 0x30, 0x30]]
  }

  /** A System Information structure with handle 0x0100 and the strings
      "Acme" and "Widget-9000", with an end-of-table structure after it: the strings come back as written and
      the advance, 45 bytes, lands on the end-of-table header. */
  lemma SystemInformationExample(s: SystemInformation, endOfTable: seq<u8>)
    requires s.Type == 1 && s.Length == 27 && s.Handle == 0x0100 && |s.Uuid| == 16
    requires endOfTable == [127, 4, 0xff, 0xfe, 0, 0]
    ensures var data := EncodeSystemInformation(s) + Encode(ExampleStrings()) + endOfTable;
      && TableNew(data) == Some(Type1(s))
      && Decodes(data[27..], ExampleStrings())
      && TotalLen(Type1(s), ExampleStrings()) == 45
      && data[TotalLen(Type1(s), ExampleStrings())..] == endOfTable
  {
    var ss := ExampleStrings();
    var tail := Encode(ss) + endOfTable;
    var data := EncodeSystemInformation(s) + Encode(ss) + endOfTable;
    assert data == EncodeSystemInformation(s) + tail;
    SystemInformationRoundTrip(s, tail);
    assert data[27..] == tail;
    StructureAdvance(data, Type1(s), ss, endOfTable);
    EncodeSize(ss);
    assert SizeOfStrings(ss[1..][1..]) == 0;
  }
}
