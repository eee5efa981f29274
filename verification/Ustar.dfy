/**
  ustar archive headers (lib/ustar.c), in the format that POSIX.1-2001 gives under
  "ustar Interchange Format" of the pax utility: making one, and parsing one.
 */
module Ustar {
  import opened Bits
  import opened Numerals
  import opened Printf
  import opened UstarFields

  const HEADER_SIZE: nat := 512

  /** The modification time of every file. */
  const MTIME: nat := 1136102400

  // ---- The layout of struct ustar_header ----------------------------------------------

  datatype Field = Name | Mode | Uid | Gid | Size | Mtime | Chksum | Typeflag | Linkname | Magic | Version
                 | Uname | Gname | Devmajor | Devminor | Prefix | Padding

  function Length(f: Field): (n: nat) {
    match f
    case Name => 100 case Mode => 8 case Uid => 8 case Gid => 8 case Size => 12 case Mtime => 12
    case Chksum => 8 case Typeflag => 1 case Linkname => 100 case Magic => 6 case Version => 2
    case Uname => 32 case Gname => 32 case Devmajor => 8 case Devminor => 8 case Prefix => 155 case Padding => 12
  }

  function Offset(f: Field): (n: nat)
    ensures n + Length(f) <= HEADER_SIZE
  {
    match f
    case Name => 0 case Mode => 100 case Uid => 108 case Gid => 116 case Size => 124 case Mtime => 136
    case Chksum => 148 case Typeflag => 156 case Linkname => 157 case Magic => 257 case Version => 263
    case Uname => 265 case Gname => 297 case Devmajor => 329 case Devminor => 337 case Prefix => 345 case Padding => 500
  }

  lemma FieldsApart(f: Field, g: Field)
    requires f != g
    ensures Offset(f) + Length(f) <= Offset(g) || Offset(g) + Length(g) <= Offset(f)
  {}

  ghost predicate InField(f: Field, i: nat) { Offset(f) <= i < Offset(f) + Length(f) }

  /** The fields leave no byte out. */
  lemma FieldsCover(i: nat) returns (f: Field)
    requires i < HEADER_SIZE
    ensures InField(f, i)
  {
    f := if i < 100 then Name else if i < 108 then Mode else if i < 116 then Uid else if i < 124 then Gid
         else if i < 136 then Size else if i < 148 then Mtime else if i < 156 then Chksum else if i < 157 then Typeflag
         else if i < 257 then Linkname else if i < 263 then Magic else if i < 265 then Version else if i < 297 then Uname
         else if i < 329 then Gname else if i < 337 then Devmajor else if i < 345 then Devminor
         else if i < 500 then Prefix else Padding;
  }

  function FieldOf(h: string, f: Field): (s: string)
    requires |h| == HEADER_SIZE
    ensures |s| == Length(f)
  {
    h[Offset(f)..Offset(f) + Length(f)]
  }

  /** A header is determined by its fields. */
  lemma SameFields(h: string, k: string)
    requires |h| == |k| == HEADER_SIZE && forall f :: FieldOf(h, f) == FieldOf(k, f)
    ensures h == k
  {
    forall i | 0 <= i < HEADER_SIZE ensures h[i] == k[i] {
      var f := FieldsCover(i);
      assert FieldOf(h, f)[i - Offset(f)] == h[i] && FieldOf(k, f)[i - Offset(f)] == k[i];
    }
  }

  // ---- The checksum ------------------------------------------------------------------

  /** The bytes of a header. */
  ghost predicate IsHeader(h: string) { |h| == HEADER_SIZE && forall i :: 0 <= i < HEADER_SIZE ==> h[i] as int < 256 }

  function Summand(h: string, i: nat): (n: nat)
    requires i < |h|
  {
    if 148 <= i < 156 then ' ' as int else h[i] as int
  }

  /** The sum of the first n bytes, with spaces for the checksum field. */
  ghost function SumTo(h: string, n: nat): (sum: nat)
    requires n <= |h|
  {
    if n == 0 then 0 else SumTo(h, n - 1) + Summand(h, n - 1)
  }

  ghost function Checksum(h: string): (sum: nat)
    requires |h| == HEADER_SIZE
  {
    SumTo(h, HEADER_SIZE)
  }

  /** The plain sum of a string of bytes. */
  ghost function ByteSum(s: string): (sum: nat) {
    if s == [] then 0 else ByteSum(s[..|s|-1]) + s[|s|-1] as int
  }

  lemma {:induction false} ByteSumAdds(s: string, t: string)
    ensures ByteSum(s + t) == ByteSum(s) + ByteSum(t)
    decreases |t|
  {
    if t == [] {
      assert s + t == s;
    } else {
      ByteSumAdds(s, t[..|t|-1]);
      assert (s + t)[..|s + t|-1] == s + t[..|t|-1];
    }
  }

  /** A header with spaces in its checksum field. */
  ghost function Blanked(h: string): (b: string)
    requires |h| == HEADER_SIZE
    ensures |b| == HEADER_SIZE && FieldOf(b, Chksum) == "        "
    ensures forall f :: f != Chksum ==> FieldOf(b, f) == FieldOf(h, f)
  {
    h[..148] + "        " + h[156..]
  }

  lemma {:induction false} SumIsBlanked(h: string, n: nat)
    requires |h| == HEADER_SIZE && n <= HEADER_SIZE
    ensures SumTo(h, n) == ByteSum(Blanked(h)[..n])
  {
    var b := Blanked(h);
    if n > 0 {
      SumIsBlanked(h, n - 1);
      assert b[..n][..n-1] == b[..n-1];
      assert b[n-1] as int == Summand(h, n - 1);
    }
  }

  lemma EightSpaces()
    ensures ByteSum("        ") == 256
  {
    var four := "    ";
    assert four[..3] == "   " && four[..3][..2] == "  " && four[..3][..2][..1] == " ";
    assert ByteSum("  ") == 64 && ByteSum("   ") == 96;
    assert ByteSum(four) == 128;
    ByteSumAdds(four, four);
    assert four + four == "        ";
  }

  /** The checksum is the plain sum of the bytes, the checksum field counting as eight
      spaces. */
  lemma ChecksumIsSum(h: string)
    requires |h| == HEADER_SIZE
    ensures Checksum(h) == ByteSum(Blanked(h))
    ensures Checksum(h) == ByteSum(h[..Offset(Chksum)]) + 256 + ByteSum(h[Offset(Chksum) + Length(Chksum)..])
    ensures FieldOf(h, Chksum) == "        " ==> Checksum(h) == ByteSum(h)
  {
    SumIsBlanked(h, HEADER_SIZE);
    assert Blanked(h)[..HEADER_SIZE] == Blanked(h);
    hide ByteSum, SumTo;
    EightSpaces();
    ByteSumAdds(h[..148], "        ");
    ByteSumAdds(h[..148] + "        ", h[156..]);
    if FieldOf(h, Chksum) == "        " {
      assert h == h[..148] + h[148..156] + h[156..];
    }
  }

  lemma {:induction false} SumBound(h: string, n: nat)
    requires IsHeader(h) && n <= HEADER_SIZE
    ensures SumTo(h, n) <= 255 * n
  {
    if n > 0 { SumBound(h, n - 1); }
  }

  /** calculate_chksum; the sum does not wrap. */
  method CalculateChksum(header: array<char>) returns (chksum: nat)
    requires IsHeader(header[..])
    ensures chksum == Checksum(header[..]) <= 255 * HEADER_SIZE
    ensures chksum == ByteSum(Blanked(header[..]))
  {
    ghost var h := header[..];
    assert |h| == HEADER_SIZE;
    hide IsHeader;
    chksum := 0;
    for i := 0 to HEADER_SIZE
      invariant chksum == SumTo(h, i)
    {
      var inChksumField := Offset(Chksum) <= i < Offset(Chksum) + Length(Chksum);
      chksum := chksum + if inChksumField then ' ' as int else header[i] as int;
    }
    SumBound(h, HEADER_SIZE);
    ChecksumIsSum(h);
  }

  /** The checksum does not depend on the checksum field. */
  lemma {:induction false} SumIndependent(h: string, k: string, n: nat)
    requires |h| == |k| == HEADER_SIZE && n <= HEADER_SIZE
    requires forall i :: 0 <= i < HEADER_SIZE && !InField(Chksum, i) ==> h[i] == k[i]
    ensures SumTo(h, n) == SumTo(k, n)
  {
    if n > 0 { SumIndependent(h, k, n - 1); }
  }

  /** Changing one byte outside that field changes it by as much. */
  lemma {:induction false} SumChanged(h: string, i: nat, c: char, n: nat)
    requires i < |h| && n <= |h| && !(148 <= i < 156)
    ensures SumTo(h[i := c], n) - SumTo(h, n) == if i < n then c as int - h[i] as int else 0
  {
    if n > 0 { SumChanged(h, i, c, n - 1); }
  }

  // ---- Making a header ---------------------------------------------------------------

  datatype Type = Regular | Directory

  function Flag(t: Type): (c: char) { if t.Regular? then '0' else '5' }

  ghost function Nulls(n: int): (s: string) { Repeat('\0', n) }

  /** A null-terminated string in a zeroed field. */
  ghost function Filled(s: string, f: Field): (r: string) { s + Nulls(Length(f) - |s|) }

  /** The argument of %o for an int: the int as an unsigned word. */
  function AsUnsigned(x: int): (r: nat)
    requires -0x8000_0000 <= x < 0x8000_0000
    ensures r < 0x1_0000_0000 && (r <= INT_MAX <==> x >= 0) && (x >= 0 ==> r == x) && (r - x) % 0x1_0000_0000 == 0
  {
    if x < 0 then x + 0x1_0000_0000 else x
  }

  /** What a header is about; the name is the stripped one. */
  datatype File = File(name: string, t: Type, size: int)

  ghost predicate FileOk(x: File) {
    -0x8000_0000 <= x.size < 0x8000_0000 && |x.name| <= 99 && IsName(x.name)
  }

  function ModeOf(t: Type): (n: nat) { if t.Regular? then 420 else 493 }

  /** Everybody may read a file, and its owner write it; so for a directory, which everybody may
      also search. */
  lemma Modes()
    ensures Octal("644") == ModeOf(Regular) && Octal("755") == ModeOf(Directory)
  {
    assert "644"[..2] == "64" && "644"[..2][..1] == "6" && "755"[..2] == "75" && "755"[..2][..1] == "7";
    assert Octal("6") == 6 && Octal("7") == 7;
    assert Octal("64") == 52 && Octal("75") == 61;
  }

  /** What each field of the header of a file holds. */
  ghost function Content(f: Field, x: File, chksum: nat): (s: string)
    requires FileOk(x)
  {
    match f
    case Name => Filled(x.name, Name)
    case Mode => FormatO(ModeOf(x.t), 7) + ['\0']
    case Uid => "0000000" + ['\0']
    case Gid => "0000000" + ['\0']
    case Size => FormatO(AsUnsigned(x.size), 11) + ['\0']
    case Mtime => FormatO(MTIME, 11) + ['\0']
    case Chksum => FormatO(chksum, 7) + ['\0']
    case Typeflag => [Flag(x.t)]
    case Magic => "ustar" + ['\0']
    case Version => "00"
    case Uname => Filled("root", Uname)
    case Gname => Filled("root", Gname)
    case _ => Nulls(Length(f))
  }

  /** h is the header of a file: each field is as it should be, the checksum field too. */
  ghost predicate HeaderFor(h: string, x: File)
    requires FileOk(x)
  {
    IsHeader(h) && forall f :: FieldOf(h, f) == Content(f, x, Checksum(h))
  }

  /** What a store to a field does: f is s and what it was behind that, and the other
      fields are as they were. */
  ghost predicate Stored(h: string, k: string, f: Field, s: string) {
    && |h| == |k| == HEADER_SIZE && |s| <= Length(f)
    && FieldOf(k, f) == s + FieldOf(h, f)[|s|..]
    && forall g :: g != f ==> FieldOf(k, g) == FieldOf(h, g)
  }

  lemma StoredAt(h: string, k: string, f: Field, s: string)
    requires |h| == |k| == HEADER_SIZE && |s| <= Length(f)
    requires Overlaid(h, k, Offset(f), s)
    ensures Stored(h, k, f, s)
  {
    hide FieldOf, Offset, Length, Overlaid;
    FieldHere(h, k, f, s);
    forall g | g != f ensures FieldOf(k, g) == FieldOf(h, g) {
      FieldElsewhere(h, k, f, s, g);
    }
  }

  lemma FieldHere(h: string, k: string, f: Field, s: string)
    requires |h| == |k| == HEADER_SIZE && |s| <= Length(f) && Overlaid(h, k, Offset(f), s)
    ensures FieldOf(k, f) == s + FieldOf(h, f)[|s|..]
  {
    hide Offset, Length, Overlaid;
    StoredHere(h, k, Offset(f), Length(f), s);
  }

  lemma FieldElsewhere(h: string, k: string, f: Field, s: string, g: Field)
    requires |h| == |k| == HEADER_SIZE && |s| <= Length(f) && Overlaid(h, k, Offset(f), s) && f != g
    ensures FieldOf(k, g) == FieldOf(h, g)
  {
    hide Offset, Length, Overlaid;
    FieldsApart(f, g);
    StoredElsewhere(h, k, Offset(f), s, Offset(g), Length(g));
  }

  ghost predicate Overlaid(h: string, k: string, o: nat, s: string) {
    |h| == |k| && forall i :: 0 <= i < |h| ==> k[i] == if o <= i < o + |s| then s[i - o] else h[i]
  }

  lemma StoredHere(h: string, k: string, o: nat, n: nat, s: string)
    requires |s| <= n && o + n <= |h| && Overlaid(h, k, o, s)
    ensures k[o..o + n] == s + h[o..o + n][|s|..]
  {}

  lemma StoredElsewhere(h: string, k: string, o: nat, s: string, p: nat, n: nat)
    requires p + n <= |h| && Overlaid(h, k, o, s) && (o + |s| <= p || p + n <= o)
    ensures k[p..p + n] == h[p..p + n]
  {}

  /** Some of a string's bytes. */
  ghost predicate AllBytes(s: string) { forall i :: 0 <= i < |s| ==> s[i] as int < 256 }

  /** memcpy of s to the start of a field. */
  method Store(header: array<char>, f: Field, s: string)
    requires IsHeader(header[..]) && |s| <= Length(f) && AllBytes(s)
    modifies header
    ensures IsHeader(header[..]) && Stored(old(header[..]), header[..], f, s)
  {
    ghost var h := header[..];
    for j := 0 to |s|
      invariant forall i :: 0 <= i < HEADER_SIZE ==>
                  header[i] == if Offset(f) <= i < Offset(f) + j then s[i - Offset(f)] else h[i]
    {
      header[Offset(f) + j] := s[j];
    }
    StoredAt(h, header[..], f, s);
  }

  lemma Capacities()
    ensures Eights(7) == 2097152 && Eights(11) == 8589934592
  {
    assert Eights(3) == 512;
    assert Eights(6) == 512 * Eights(3);
    assert Eights(9) == 512 * Eights(6);
    assert Eights(11) == 64 * Eights(9);
  }

  lemma NullsAre(n: nat)
    ensures |Nulls(n)| == n && forall i :: 0 <= i < n ==> Nulls(n)[i] == '\0'
  {
    forall i | 0 <= i < n ensures Nulls(n)[i] == '\0' { assert Nulls(n)[i] in Nulls(n); }
  }

  /** memset (h, 0, sizeof *h) */
  method Zero(header: array<char>, ghost x: File)
    requires header.Length == HEADER_SIZE && FileOk(x)
    modifies header
    ensures Progress(header[..], {}, x)
  {
    for i := 0 to HEADER_SIZE
      invariant forall j :: 0 <= j < i ==> header[j] == '\0'
    {
      header[i] := '\0';
    }
    forall f ensures FieldOf(header[..], f) == Nulls(Length(f)) {
      NullsAre(Length(f));
    }
  }

  /** The fields in done are as they should be and the others are still zero. */
  ghost predicate Progress(h: string, done: set<Field>, x: File)
    requires FileOk(x)
  {
    IsHeader(h) && forall f :: FieldOf(h, f) == if f in done then Content(f, x, 0) else Nulls(Length(f))
  }

  /** Storing s in a zeroed field gives the field its content. */
  ghost predicate Fills(s: string, f: Field, x: File)
    requires FileOk(x)
  {
    |s| <= Length(f) && s + Nulls(Length(f) - |s|) == Content(f, x, 0)
  }

  lemma NullsTail(n: nat, k: nat)
    requires k <= n
    ensures |Nulls(n)| == n && Nulls(n)[k..] == Nulls(n - k)
  {
    NullsAre(n);
    NullsAre(n - k);
  }

  lemma ProgressMade(h: string, k: string, done: set<Field>, f: Field, s: string, x: File)
    requires FileOk(x) && Progress(h, done, x) && IsHeader(k) && f !in done && Stored(h, k, f, s) && Fills(s, f, x)
    ensures Progress(k, done + {f}, x)
  {
    hide FieldOf, Content, Nulls;
    NullsTail(Length(f), |s|);
  }

  /** A store that gives a field its content. */
  method Fill(header: array<char>, f: Field, s: string, ghost done: set<Field>, ghost x: File)
    requires FileOk(x) && Progress(header[..], done, x) && f !in done && AllBytes(s) && Fills(s, f, x)
    modifies header
    ensures Progress(header[..], done + {f}, x)
  {
    ghost var h := header[..];
    hide FieldOf, Content, Nulls, Stored, FileOk;
    Store(header, f, s);
    ProgressMade(h, header[..], done, f, s, x);
  }

  /** strlcpy to a field with room */
  method CopyString(header: array<char>, f: Field, s: string, ghost done: set<Field>, ghost x: File)
    requires FileOk(x) && Progress(header[..], done, x) && f !in done && IsName(s) && Fills(s + ['\0'], f, x)
    modifies header
    ensures Progress(header[..], done + {f}, x)
  {
    assert AllBytes(s + ['\0']) by {
      forall i | 0 <= i < |s| ensures s[i] as int < 256 { assert s[i] in s; }
    }
    Fill(header, f, s + ['\0'], done, x);
  }

  /** What snprintf (field, width + 1, "%0<width>o", value) leaves in the field. */
  method Printed(value: nat, width: nat) returns (s: string)
    requires 0 < width && value < Eights(width) && value < 0x1_0000_0000
    ensures s == FormatO(value, width) + ['\0'] && |s| == width + 1 && AllBytes(s)
  {
    hide Rendered, Octal, Eights;
    ghost var t := FormatO(value, width);
    FormatODenotes(value, width);
    var buf := new char[width + 1];
    var _ := SnprintfInteger(buf, value, false, false, BASE_O, ZeroPadded(width));
    assert buf[..] == buf[..width] + [buf[width]];
    s := buf[..];
    forall i | 0 <= i < |s| ensures s[i] as int < 256 {
      assert i < width ==> s[i] == t[i] && t[i] in t;
    }
  }

  /** snprintf of an octal number that fits the field */
  method PrintOctal(header: array<char>, f: Field, value: nat, ghost done: set<Field>, ghost x: File)
    requires Length(f) > 1 && value < Eights(Length(f) - 1) && value < 0x1_0000_0000
    requires FileOk(x) && Progress(header[..], done, x) && f !in done && Fills(FormatO(value, Length(f) - 1) + ['\0'], f, x)
    modifies header
    ensures Progress(header[..], done + {f}, x)
  {
    hide FormatO, Eights, Progress, Fills, AllBytes, FileOk;
    var s := Printed(value, Length(f) - 1);
    Fill(header, f, s, done, x);
  }

  /** The strings that ustar_make_header stores give their fields the right content. */
  lemma StringsFill(x: File)
    requires FileOk(x)
    ensures Fills(x.name + ['\0'], Name, x) && Fills("0000000" + ['\0'], Uid, x) && Fills("0000000" + ['\0'], Gid, x)
    ensures Fills([Flag(x.t)], Typeflag, x) && Fills("ustar" + ['\0'], Magic, x) && Fills("00", Version, x)
    ensures Fills("root" + ['\0'], Uname, x) && Fills("root" + ['\0'], Gname, x)
  {
    hide FormatO, IsName, Nulls, Filled;
    TerminatedFills(x.name, Name, x);
    TerminatedFills("root", Uname, x);
    TerminatedFills("root", Gname, x);
    NoNulls("0000000" + ['\0']);
    NoNulls("ustar" + ['\0']);
    NoNulls([Flag(x.t)]);
    NoNulls("00");
  }

  lemma NoNulls(s: string)
    ensures s + Nulls(0) == s
  {}

  lemma TerminatedFills(s: string, f: Field, x: File)
    requires FileOk(x) && |s| < Length(f) && Content(f, x, 0) == Filled(s, f)
    ensures Fills(s + ['\0'], f, x)
  {
    hide Content, FileOk;
    Terminated(s, Length(f) - |s|);
  }

  lemma Terminated(s: string, n: nat)
    requires n > 0
    ensures s + Nulls(n) == s + ['\0'] + Nulls(n - 1) && Nulls(0) == []
  {
    NullsAre(n);
    NullsAre(n - 1);
  }

  lemma FormatOWidth(v: nat, width: nat)
    requires width > 0 && v < Eights(width)
    ensures |FormatO(v, width)| == width
  {
    FormatODenotes(v, width);
  }

  /** So do the numbers. */
  lemma NumbersFill(x: File)
    requires FileOk(x)
    ensures Fills(FormatO(ModeOf(x.t), 7) + ['\0'], Mode, x)
    ensures Fills(FormatO(AsUnsigned(x.size), 11) + ['\0'], Size, x) && Fills(FormatO(MTIME, 11) + ['\0'], Mtime, x)
  {
    Capacities();
    hide FormatO, IsName, Eights;
    FormatOWidth(ModeOf(x.t), 7);
    FormatOWidth(AsUnsigned(x.size), 11);
    FormatOWidth(MTIME, 11);
  }

  lemma Literals(x: File)
    requires FileOk(x)
    ensures IsName("0000000") && IsName("ustar") && IsName("root")
    ensures AllBytes([Flag(x.t)]) && AllBytes("00")
  {}

  const NUMBERS: set<Field> := {Name, Mode, Uid, Gid, Size, Mtime}
  const DRAFTED: set<Field> := NUMBERS + {Typeflag, Magic, Version, Gname, Uname}

  /** ustar_make_header up to the modification time. */
  method DraftNumbers(header: array<char>, x: File)
    requires FileOk(x) && header.Length == HEADER_SIZE
    modifies header
    ensures Progress(header[..], NUMBERS, x)
  {
    hide FormatO, Eights, Progress, Fills, IsName, AllBytes, Octal;
    Capacities();
    StringsFill(x);
    NumbersFill(x);
    Literals(x);
    Zero(header, x);
    ghost var done: set<Field> := {};
    CopyString(header, Name, x.name, done, x);
    done := done + {Name};
    PrintOctal(header, Mode, ModeOf(x.t), done, x);
    done := done + {Mode};
    CopyString(header, Uid, "0000000", done, x);
    done := done + {Uid};
    CopyString(header, Gid, "0000000", done, x);
    done := done + {Gid};
    PrintOctal(header, Size, AsUnsigned(x.size), done, x);
    done := done + {Size};
    PrintOctal(header, Mtime, MTIME, done, x);
    done := done + {Mtime};
    assert done == NUMBERS;
  }

  /** All of ustar_make_header but the checksum. */
  method Draft(header: array<char>, x: File)
    requires FileOk(x) && header.Length == HEADER_SIZE
    modifies header
    ensures Progress(header[..], DRAFTED, x)
  {
    hide Progress, Fills, IsName, AllBytes, FileOk;
    StringsFill(x);
    Literals(x);
    DraftNumbers(header, x);
    ghost var done := NUMBERS;
    Fill(header, Typeflag, [Flag(x.t)], done, x);
    done := done + {Typeflag};
    CopyString(header, Magic, "ustar", done, x);
    done := done + {Magic};
    Fill(header, Version, "00", done, x);
    done := done + {Version};
    CopyString(header, Gname, "root", done, x);
    done := done + {Gname};
    CopyString(header, Uname, "root", done, x);
    done := done + {Uname};
    assert done == DRAFTED;
  }

  /** The last step of ustar_make_header. */
  method Finish(header: array<char>, ghost x: File)
    requires FileOk(x) && Progress(header[..], DRAFTED, x)
    modifies header
    ensures HeaderFor(header[..], x)
  {
    hide FormatO, Eights, IsHeader, Checksum, Progress, Stored, FileOk, AllBytes, HeaderFor;
    ghost var h := header[..];
    Capacities();
    ProgressHeader(h, DRAFTED, x);
    var chksum := CalculateChksum(header);
    var s := Printed(chksum, 7);
    Store(header, Chksum, s);
    StoredSum(h, header[..], s);
    Finished(h, header[..], x);
  }

  lemma ProgressHeader(h: string, done: set<Field>, x: File)
    requires FileOk(x) && Progress(h, done, x)
    ensures IsHeader(h)
  {}

  lemma StoredSum(h: string, k: string, s: string)
    requires Stored(h, k, Chksum, s)
    ensures Checksum(h) == Checksum(k)
  {
    forall i | 0 <= i < HEADER_SIZE && !InField(Chksum, i) ensures h[i] == k[i] {
      var f := FieldsCover(i);
      assert FieldOf(h, f)[i - Offset(f)] == h[i] && FieldOf(k, f)[i - Offset(f)] == k[i];
    }
    SumIndependent(h, k, HEADER_SIZE);
  }

  /** Only the checksum field's content depends on the checksum, and the fields that are
      not drafted are zero. */
  lemma SameContent(f: Field, x: File, chksum: nat)
    requires FileOk(x) && f != Chksum
    ensures Content(f, x, chksum) == if f in DRAFTED then Content(f, x, 0) else Nulls(Length(f))
  {
    hide Nulls, Filled, FormatO, IsName;
  }

  lemma Finished(h: string, k: string, x: File)
    requires FileOk(x) && Progress(h, DRAFTED, x) && IsHeader(k)
    requires Stored(h, k, Chksum, FormatO(Checksum(k), 7) + ['\0']) && |FormatO(Checksum(k), 7)| == 7
    ensures HeaderFor(k, x)
  {
    hide FieldOf, Nulls, Filled, FormatO, Checksum, IsName;
    assert Content(Chksum, x, Checksum(k)) == FormatO(Checksum(k), 7) + ['\0'];
    hide Content;
    var s := FormatO(Checksum(k), 7) + ['\0'];
    assert s + FieldOf(h, Chksum)[8..] == s;
    forall f ensures FieldOf(k, f) == Content(f, x, Checksum(k)) {
      if f != Chksum {
        SameContent(f, x, Checksum(k));
        assert FieldOf(k, f) == FieldOf(h, f);
      }
    }
  }

  /** ustar_make_header: fails exactly if the stripped name is too long, and then leaves
      the buffer alone. */
  method MakeHeader(fileName: string, t: Type, size: int, header: array<char>) returns (ok: bool)
    requires -0x8000_0000 <= size < 0x8000_0000 && IsName(fileName) && header.Length == HEADER_SIZE
    modifies header
    ensures ok <==> |Stripped(fileName)| <= 99
    ensures ok ==> FileOk(File(Stripped(fileName), t, size)) && HeaderFor(header[..], File(Stripped(fileName), t, size))
    ensures !ok ==> header[..] == old(header[..])
  {
    hide Stripped, Progress, HeaderFor, IsName;
    StrippedName(fileName);
    var name := StripPrefixes(fileName);
    if |name| > 99 {
      return false;
    }
    Draft(header, File(name, t, size));
    Finish(header, File(name, t, size));
    return true;
  }
}
