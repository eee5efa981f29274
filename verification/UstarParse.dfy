/** ustar_parse_header (lib/ustar.c), and that it undoes ustar_make_header. */
module UstarParse {
  import opened Bits
  import opened Numerals
  import opened Printf
  import opened UstarFields
  import opened Ustar

  datatype Error = NotUstar | BadVersion | CorruptChksum | ChksumMismatch | NameTooLong | UnknownType
                 | CorruptSize | TooLarge

  datatype Parsed = Eof | Entry(name: string, t: Type, size: nat) | Bad(error: Error)

  ghost predicate AllZeros(h: string) { forall i :: 0 <= i < |h| ==> h[i] == '\0' }

  /** What a header says: the end of the archive, a file, or the first thing that is
      wrong with it. */
  ghost function Parse(h: string): (p: Parsed)
    requires |h| == HEADER_SIZE
  {
    var size := if FieldOf(h, Typeflag) == ['0'] then OctalField(FieldOf(h, Size)) else Some(0);
    if AllZeros(h) then Eof
    else if FieldOf(h, Magic) != "ustar" + ['\0'] then Bad(NotUstar)
    else if FieldOf(h, Version) != "00" then Bad(BadVersion)
    else if OctalField(FieldOf(h, Chksum)).None? then Bad(CorruptChksum)
    else if OctalField(FieldOf(h, Chksum)) != Some(Checksum(h)) then Bad(ChksumMismatch)
    else if FieldOf(h, Name)[99] != '\0' || FieldOf(h, Prefix)[0] != '\0' then Bad(NameTooLong)
    else if FieldOf(h, Typeflag) != ['0'] && FieldOf(h, Typeflag) != ['5'] then Bad(UnknownType)
    else if size.None? then Bad(CorruptSize)
    else if size.value > INT_MAX then Bad(TooLarge)
    else Entry(Stripped(CString(FieldOf(h, Name))), if FieldOf(h, Typeflag) == ['0'] then Regular else Directory, size.value)
  }

  /** is_all_zeros */
  method IsAllZeros(block: array<char>) returns (b: bool)
    ensures b <==> AllZeros(block[..])
  {
    var i := 0;
    while i < block.Length
      invariant 0 <= i <= block.Length && forall j :: 0 <= j < i ==> block[j] == '\0'
    {
      if block[i] != '\0' {
        assert block[..][i] != '\0';
        return false;
      }
      i := i + 1;
    }
    return true;
  }

  /** The bytes of a field. */
  method Read(header: array<char>, f: Field) returns (s: string)
    requires header.Length == HEADER_SIZE
    ensures s == FieldOf(header[..], f)
  {
    s := header[Offset(f)..Offset(f) + Length(f)];
  }

  /** The size of a file; only a regular file has one. */
  method ParseSize(header: array<char>, typeflag: string) returns (size: Option<nat>)
    requires header.Length == HEADER_SIZE
    ensures size == if typeflag == ['0'] then OctalField(FieldOf(header[..], Size)) else Some(0)
  {
    if typeflag == ['0'] {
      var field := Read(header, Size);
      size := ParseOctalField(field);
    } else {
      size := Some(0);
    }
  }

  /** The type, size and name checks of ustar_parse_header, the last ones. */
  method ParseEntry(header: array<char>) returns (p: Parsed)
    requires IsHeader(header[..]) && !AllZeros(header[..])
    requires FieldOf(header[..], Magic) == "ustar" + ['\0'] && FieldOf(header[..], Version) == "00"
    requires OctalField(FieldOf(header[..], Chksum)) == Some(Checksum(header[..]))
    ensures p == Parse(header[..])
  {
    hide OctalField, Checksum, Stripped, FieldOf, AllZeros, CString;
    var name := Read(header, Name);
    var prefix := Read(header, Prefix);
    var typeflag := Read(header, Typeflag);
    if name[99] != '\0' || prefix[0] != '\0' {
      return Bad(NameTooLong);
    }
    if typeflag != ['0'] && typeflag != ['5'] {
      return Bad(UnknownType);
    }
    var size := ParseSize(header, typeflag);
    if size.None? {
      return Bad(CorruptSize);
    }
    if size.value > INT_MAX {
      return Bad(TooLarge);
    }
    var stripped := StripPrefixes(CString(name));
    return Entry(stripped, if typeflag == ['0'] then Regular else Directory, size.value);
  }

  /** ustar_parse_header */
  method ParseHeader(header: array<char>) returns (p: Parsed)
    requires IsHeader(header[..])
    ensures p == Parse(header[..])
  {
    hide OctalField, Checksum, Stripped, FieldOf, AllZeros, CString;
    var zeros := IsAllZeros(header);
    if zeros {
      return Eof;
    }
    var magic := Read(header, Magic);
    var version := Read(header, Version);
    var field := Read(header, Chksum);
    if magic != "ustar" + ['\0'] {
      return Bad(NotUstar);
    }
    if version != "00" {
      return Bad(BadVersion);
    }
    var chksum := ParseOctalField(field);
    if chksum.None? {
      return Bad(CorruptChksum);
    }
    var sum := CalculateChksum(header);
    if chksum.value != sum {
      return Bad(ChksumMismatch);
    }
    p := ParseEntry(header);
  }

  // ---- Round trip --------------------------------------------------------------------

  lemma NotAllZeros(h: string)
    requires |h| == HEADER_SIZE && FieldOf(h, Magic) == "ustar" + ['\0']
    ensures !AllZeros(h)
  {
    assert FieldOf(h, Magic)[0] == h[257] == 'u';
  }

  lemma NameRead(s: string)
    requires IsName(s) && |s| <= 99
    ensures |Filled(s, Name)| == 100 && Filled(s, Name)[99] == '\0' && CString(Filled(s, Name)) == s
  {
    var t := Filled(s, Name);
    NullsAre(100 - |s|);
    assert t[..|s|] == s && t[|s|] == '\0';
    assert '\0' !in s;
    CStringIs(t, |s|);
  }

  /** The numeric fields of a header read back as what was printed into them. */
  lemma NumbersRead(h: string, x: File)
    requires FileOk(x) && HeaderFor(h, x)
    ensures OctalField(FieldOf(h, Chksum)) == Some(Checksum(h))
    ensures OctalField(FieldOf(h, Size)) == Some(AsUnsigned(x.size))
  {
    hide OctalField, FormatO, FieldOf, SumTo, IsName;
    Capacities();
    SumBound(h, HEADER_SIZE);
    OctalRoundTrip(Checksum(h), 7);
    OctalRoundTrip(AsUnsigned(x.size), 11);
  }

  /** The other fields that the parser looks at. */
  lemma FieldsRead(h: string, x: File)
    requires FileOk(x) && HeaderFor(h, x)
    ensures FieldOf(h, Magic) == "ustar" + ['\0'] && FieldOf(h, Version) == "00" && FieldOf(h, Typeflag) == [Flag(x.t)]
    ensures FieldOf(h, Name)[99] == '\0' && CString(FieldOf(h, Name)) == x.name && FieldOf(h, Prefix)[0] == '\0'
    ensures !AllZeros(h)
  {
    hide OctalField, FormatO, FieldOf, Checksum, CString, IsName, AllZeros, Nulls, Filled;
    NameRead(x.name);
    NullsAre(155);
    assert FieldOf(h, Magic) == "ustar" + ['\0'];
    NotAllZeros(h);
  }

  /** What the parser makes of the header of a file. */
  lemma ParseOf(h: string, x: File)
    requires FileOk(x) && HeaderFor(h, x)
    ensures Parse(h) == if x.t.Regular? && x.size < 0 then Bad(TooLarge)
                        else Entry(Stripped(x.name), x.t, if x.t.Regular? then x.size else 0)
  {
    hide OctalField, Checksum, Stripped, FieldOf, AllZeros, CString, IsName, HeaderFor;
    NumbersRead(h, x);
    FieldsRead(h, x);
  }

  /** ustar_parse_header undoes ustar_make_header: it gives back the stripped name, the
      type, and the size, 0 for a directory; except that it refuses a regular file
      whose size was negative. */
  lemma RoundTrip(fileName: string, t: Type, size: int, h: string)
    requires -0x8000_0000 <= size < 0x8000_0000 && IsName(fileName) && |Stripped(fileName)| <= 99
    requires FileOk(File(Stripped(fileName), t, size)) && HeaderFor(h, File(Stripped(fileName), t, size))
    ensures Parse(h) == if t.Regular? && size < 0 then Bad(TooLarge)
                        else Entry(Stripped(fileName), t, if t.Regular? then size else 0)
  {
    hide Parse, HeaderFor, Stripped, IsName;
    ParseOf(h, File(Stripped(fileName), t, size));
    StrippedFixpoint(fileName);
  }

  /** The parser never hands out a name that reaches above or outside the directory it
      extracts to by its first components. */
  lemma ParsedNameSafe(h: string)
    requires |h| == HEADER_SIZE && Parse(h).Entry?
    ensures Safe(Parse(h).name) && Parse(h).size <= INT_MAX
  {
    var _ := StrippedIs(CString(FieldOf(h, Name)));
  }

  /** The checksum catches every change of one byte outside the checksum field. */
  lemma ChangeDetected(h: string, i: nat, c: char)
    requires |h| == HEADER_SIZE && Parse(h).Entry? && i < HEADER_SIZE && !InField(Chksum, i) && c != h[i]
    ensures Parse(h[i := c]).Bad?
  {
    hide Stripped, CString, Octal, OctalLead, OctalField;
    var k := h[i := c];
    SumChanged(h, i, c, HEADER_SIZE);
    assert FieldOf(k, Chksum) == FieldOf(h, Chksum);
    DigitPresent(h);
    var j: nat :| InField(Chksum, j) && h[j] != '\0';
    assert k[j] == h[j];
  }

  /** A checksum field that parses has a digit in it. */
  lemma DigitPresent(h: string)
    requires |h| == HEADER_SIZE && OctalField(FieldOf(h, Chksum)).Some?
    ensures exists j: nat :: InField(Chksum, j) && h[j] != '\0'
  {
    var s := FieldOf(h, Chksum);
    OctalLeadAt(s, 0);
    assert InField(Chksum, 148) && h[148] == s[0];
  }

  /** Making a header and parsing it, through the buffer. */
  method MakeAndParse(fileName: string, t: Type, size: int) returns (p: Option<Parsed>)
    requires -0x8000_0000 <= size < 0x8000_0000 && IsName(fileName)
    ensures p.None? <==> |Stripped(fileName)| > 99
    ensures p.Some? ==> p.value == if t.Regular? && size < 0 then Bad(TooLarge)
                                   else Entry(Stripped(fileName), t, if t.Regular? then size else 0)
  {
    hide Parse, HeaderFor, Stripped, IsName, IsHeader;
    var header := new char[HEADER_SIZE];
    var ok := MakeHeader(fileName, t, size, header);
    if !ok {
      return None;
    }
    RoundTrip(fileName, t, size, header[..]);
    IsHeaderOf(header[..], File(Stripped(fileName), t, size));
    var q := ParseHeader(header);
    return Some(q);
  }

  lemma IsHeaderOf(h: string, x: File)
    requires FileOk(x) && HeaderFor(h, x)
    ensures IsHeader(h)
  {}
}
