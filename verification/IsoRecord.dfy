/**
 Model of the directory records of internal/purefs/iso9660.go: dirRecord with its Rock Ridge
 entries, extentSpans, and a reader of one record (section 9.1 of ECMA-119).
 */
module IsoRecord {
  import opened Basics
  import opened Codec
  import opened Seqs

  const SECTOR: nat := 2048

  // ---------- identifiers ----------

  predicate Trailing(c: byte) {
    0x80 <= c <= 0xBF
  }

  /** How many bytes the first UTF-8 rune takes; a byte that starts no valid rune stands alone. */
  function RuneLength(s: Name): (k: nat)
    requires s != []
    ensures 0 < k <= 4 && k <= |s|
  {
    var a := s[0];
    if |s| >= 2 && 0xC2 <= a <= 0xDF && Trailing(s[1]) then 2
    else if |s| >= 3 && 0xE0 <= a <= 0xEF && Trailing(s[1]) && (a == 0xE0 ==> s[1] >= 0xA0) &&
        (a == 0xED ==> s[1] <= 0x9F) && Trailing(s[2]) then 3
    else if |s| >= 4 && 0xF0 <= a <= 0xF4 && Trailing(s[1]) && (a == 0xF0 ==> s[1] >= 0x90) &&
        (a == 0xF4 ==> s[1] <= 0x8F)
            && Trailing(s[2]) && Trailing(s[3]) then 4
    else 1
  }

  /** strings.ToUpper of a rune, restricted to the identifier's characters.  Outside ASCII only the
      dotless i and the long s have an ASCII upper case. */
  function IsoRune(r: Bytes): byte
    requires r != []
  {
    if r == [0xC4, 0xB1] then 73
    else if r == [0xC5, 0xBF] then 83
    else if |r| > 1 then 95
    else
      var u: byte := if 97 <= r[0] <= 122 then r[0] - 32 else r[0];
      if 65 <= u <= 90 || 48 <= u <= 57 || u == 95 || u == 46 then u else 95
  }

  function IsoChars(name: Name): (r: Bytes)
    ensures |r| <= |name| <= 4 * |r|
    decreases |name|
  {
    if name == [] then [] else
    var k := RuneLength(name);
    [IsoRune(name[..k])] + IsoChars(name[k..])
  }

  /** The ISO 9660 identifier: upper-cased, restricted, at most its last 30 bytes. */
  function IsoName(name: Name, isDir: bool): (id: Bytes)
    ensures |id| <= 30 && |id| <= |name| + 3 && (name != [] ==> id != [])
  {
    var s := IsoChars(name);
    var t := if !isDir && 46 !in s then s + [46] else s;
    var u: Bytes := if !isDir then t + [59, 49] else t;
    if |u| > 30 then u[|u| - 30..] else u
  }

  /** The d-characters and the full stop (section 7.4 of ECMA-119). */
  predicate Allowed(c: byte) {
    48 <= c <= 57 || 65 <= c <= 90 || c == 95 || c == 46
  }

  /** An identifier is restricted to them; a file's ends with its version, ";1". */
  predicate IsIdentifier(id: Bytes, isDir: bool) {
    var stem := if isDir then |id| else |id| - 2;
    && |id| <= 30 && 0 <= stem && (forall i | 0 <= i < stem :: Allowed(id[i]))
    && (!isDir ==> id[stem..] == [59, 49])
  }

  lemma NameIsIdentifier(name: Name, isDir: bool)
    ensures IsIdentifier(IsoName(name, isDir), isDir)
  {
    hide IsoChars;
    CharsAllowed(name);
  }

  lemma {:induction false} CharsAllowed(name: Name)
    ensures forall c | c in IsoChars(name) :: Allowed(c)
    decreases |name|
  {
    if name != [] { CharsAllowed(name[RuneLength(name)..]); }
  }

  /** An ASCII name keeps its length and its allowed characters; lower case becomes upper case and
      everything else an underscore. */
  lemma {:induction false} AsciiChars(name: Name)
    requires forall i | 0 <= i < |name| :: name[i] < 128
    ensures |IsoChars(name)| == |name|
    ensures forall i | 0 <= i < |name| ::
              IsoChars(name)[i] == if Allowed(name[i]) then name[i] else if 97 <= name[i] <= 122 then name[i] - 32
                  else 95
  {
    if name != [] {
      assert RuneLength(name) == 1 && name[..1] == [name[0]];
      AsciiChars(name[1..]);
    }
  }

  // ---------- writing a record ----------

  /** One entry of a directory: "." and ".." carry no Rock Ridge name. */
  datatype Kind = Self(root: bool) | Up | Named(name: Name)

  datatype Record = Record(kind: Kind, extent: nat, size: nat, isDir: bool, multi: bool)

  function Both32(v: nat): (b: Bytes)
    ensures |b| == 8
  {
    LE(v, 4) + BE(v, 4)
  }

  function Identifier(kind: Kind, isDir: bool): (id: Bytes)
    ensures |id| <= 30
  {
    match kind
    case Self(_) => [0]
    case Up => [1]
    case Named(name) => IsoName(name, isDir)
  }

  /** PX: mode, links, uid and gid, each in both byte orders. */
  function PosixEntry(isDir: bool): (b: Bytes)
    ensures |b| == 36
  {
    [80, 88, 36, 1] + Both32(if isDir then 0x416D else 0x8124) + Both32(if isDir then 2 else 1) + Both32(0) + Both32(0)
  }

  /** SP and ER, on the root's "." only. */
  const ROOT_ENTRIES: Bytes := [83, 80, 7, 1, 0xBE, 0xEF, 0] +
    [69, 82, 18, 1, 10, 0, 0, 1, 82, 82, 73, 80, 95, 49, 57, 57, 49, 65]

  function SystemUse(kind: Kind, isDir: bool): Bytes {
    (if kind == Self(true) then ROOT_ENTRIES else [])
      + [82, 82, 5, 1, if kind.Named? then 9 else 1] + PosixEntry(isDir) + NameEntry(kind)
  }

  function NameEntry(kind: Kind): Bytes {
    if kind.Named? then [78, 77, (5 + |kind.name|) % 256, 1, 0] + kind.name else []
  }

  /** The record length depends on the name and the kind alone, never on extents or sizes. */
  function RecordLength(kind: Kind, isDir: bool): nat {
    Rounded(33 + |Identifier(kind, isDir)|, |SystemUse(kind, isDir)|)
  }

  /** Both the fixed part and the whole are padded to an even length. */
  function Rounded(base: nat, su: nat): nat {
    var unpadded := base + base % 2 + su;
    unpadded + unpadded % 2
  }

  function Flags(r: Record): byte {
    (if r.isDir then 2 else 0) + (if r.multi then 0x80 else 0)
  }

  /** The fixed fields of a record, before its identifier. */
  function Fixed(r: Record, time: Bytes, rl: nat, idLen: byte): (b: Bytes)
    requires |time| == 7
    ensures |b| == 33
  {
    [rl % 256, 0] + Both32(r.extent % U32) + Both32(r.size % U32) + time + [Flags(r), 0, 0, 1, 0, 0, 1, idLen]
  }

  function Encode(r: Record, time: Bytes): (b: Bytes)
    requires |time| == 7
    ensures |b| == RecordLength(r.kind, r.isDir)
  {
    hide Fixed, Identifier, SystemUse;
    var id, su := Identifier(r.kind, r.isDir), SystemUse(r.kind, r.isDir);
    var pad := (33 + |id|) % 2;
    Fixed(r, time, RecordLength(r.kind, r.isDir), |id|) + (id + Zeros(pad)) + (su + Zeros((33 + |id| + pad + |su|) % 2))
  }

  // ---------- reading a record ----------

  const NM: Bytes := [78, 77]
  const PX: Bytes := [80, 88]
  const ER: Bytes := [69, 82]
  const RR: Bytes := [82, 82]

  /** The first entry with signature `sig` in a system use area, found by skipping the others. */
  function FindEntry(su: Bytes, sig: Bytes): (e: Option<Bytes>)
    ensures e.Some? ==> 4 <= |e.value| <= |su|
  {
    if |su| < 5 || su[2] < 4 || su[2] > |su| then None
    else if su[..2] == sig then Some(su[..su[2]])
    else FindEntry(su[su[2]..], sig)
  }

  /** The Rock Ridge name. */
  function NameIn(su: Bytes): Option<Name> {
    var e := FindEntry(su, NM);
    if e.None? || |e.value| < 5 then None else Some(e.value[5..])
  }

  /** A number recorded in both byte orders, which have to agree (sections 7.2.3 and 7.3.3 of ECMA-119). */
  function ReadBoth(b: Bytes): Option<nat> {
    var half := |b| / 2;
    if UnLE(b[..half]) == UnBE(b[half..]) then Some(UnLE(b[..half])) else None
  }

  datatype Posix = Posix(mode: nat, links: nat, uid: nat, gid: nat)

  /** PX is mandatory on every record (section 4.1.1 of the Rock Ridge Interchange Protocol). */
  function PosixIn(su: Bytes): Option<Posix> {
    var e := FindEntry(su, PX);
    if e.None? || |e.value| < 36 then None else PosixOf(e.value)
  }

  function PosixOf(e: Bytes): Option<Posix>
    requires |e| >= 36
  {
    var mode, links, uid, gid := ReadBoth(e[4..12]), ReadBoth(e[12..20]), ReadBoth(e[20..28]), ReadBoth(e[28..36]);
    if mode.None? || links.None? || uid.None? || gid.None? then None
    else Some(Posix(mode.value, links.value, uid.value, gid.value))
  }

  /** The system use sharing protocol announces itself with an SP entry in front, and Rock Ridge with
      an ER entry, "RRIP_1991A". */
  predicate AnnouncesRockRidge(su: Bytes) {
    && |su| >= 7 && su[..7] == [83, 80, 7, 1, 0xBE, 0xEF, 0]
    && var er := FindEntry(su, ER);
       er.Some? && |er.value| >= 18 && er.value[4] == 10 && er.value[8..18] == [82, 82, 73, 80, 95, 49, 57, 57, 49, 65]
  }

  /** What RR says of the other entries: 1 for PX, 8 for NM. */
  function Listed(su: Bytes): Option<byte> {
    var e := FindEntry(su, RR);
    if e.None? || |e.value| < 5 then None else Some(e.value[4])
  }

  /** `announced`: the record carries SP and ER. */
  datatype Entry = Entry(id: Bytes, name: Option<Name>, extent: nat, size: nat, isDir: bool, multi: bool, posix: Posix,
                         listed: Option<byte>, announced: bool)

  function ReadRecord(b: Bytes): Option<Entry> {
    if |b| < 34 then None else
    var base: nat := 33 + b[32] as int;
    if base + base % 2 > |b| then None else
    var su := b[base + base % 2..];
    var extent, size, posix := ReadBoth(b[2..10]), ReadBoth(b[10..18]), PosixIn(su);
    if extent.None? || size.None? || posix.None? || ReadBoth(b[28..32]) != Some(1) then None
    else Some(Entry(b[33..base], NameIn(su), extent.value, size.value, b[25] / 2 % 2 == 1, b[25] / 128 == 1,
                    posix.value, Listed(su), AnnouncesRockRidge(su)))
  }

  /** Directories are 0o040555 with two links, files 0o100444 with one; root owns all. */
  function PosixFor(isDir: bool): Posix {
    if isDir then Posix(4 * 4096 + 5 * 64 + 5 * 8 + 5, 2, 0, 0) else Posix(8 * 4096 + 4 * 64 + 4 * 8 + 4, 1, 0, 0)
  }

  function EntryOf(r: Record): Entry {
    Entry(Identifier(r.kind, r.isDir), if r.kind.Named? then Some(r.kind.name) else None, r.extent, r.size, r.isDir,
          r.multi, PosixFor(r.isDir), Some(if r.kind.Named? then 8 + 1 else 1), r.kind == Self(true))
  }

  /** A record fits its one-byte length exactly when its Rock Ridge name has at most 144 bytes. */
  lemma LengthFits(kind: Kind, isDir: bool)
    ensures RecordLength(kind, isDir) % 2 == 0 && 74 <= RecordLength(kind, isDir)
    ensures kind.Named? ==> (RecordLength(kind, isDir) < 256 <==> |kind.name| <= 144)
    ensures !kind.Named? ==> RecordLength(kind, isDir) < 256
  {
    hide Identifier, SystemUse, IsoName, Rounded;
    SystemUseLength(kind, isDir);
    if kind.Named? && |kind.name| > 120 { LongIdentifier(kind.name, isDir); }
    RoundedUp(33 + |Identifier(kind, isDir)|, |SystemUse(kind, isDir)|);
  }

  lemma LengthBound(kind: Kind, isDir: bool)
    ensures RecordLength(kind, isDir) <= 131 + if kind.Named? then |kind.name| else 0
  {
    hide Identifier, SystemUse, Rounded;
    SystemUseLength(kind, isDir);
    RoundedUp(33 + |Identifier(kind, isDir)|, |SystemUse(kind, isDir)|);
  }

  lemma SystemUseLength(kind: Kind, isDir: bool)
    ensures |SystemUse(kind, isDir)|
         == (if kind == Self(true) then 66 else 41) + (if kind.Named? then 5 + |kind.name| else 0)
    ensures !kind.Named? ==> |Identifier(kind, isDir)| == 1
    ensures kind.Named? ==> Identifier(kind, isDir) == IsoName(kind.name, isDir)
  {
    hide PosixEntry;
  }

  lemma RoundedUp(base: nat, su: nat)
    ensures Rounded(base, su) % 2 == 0 && base + su <= Rounded(base, su) <= base + su + 2
    ensures base == 63 && su >= 191 ==> Rounded(base, su) >= 256
  {
  }

  lemma LongIdentifier(name: Name, isDir: bool)
    requires |name| > 120
    ensures |IsoName(name, isDir)| == 30
  {
  }

  // ---------- the round trip ----------

  lemma NameEntryFound(kind: Kind, tail: Bytes)
    requires |tail| <= 1 && (kind.Named? ==> |kind.name| <= 250)
    ensures NameIn(NameEntry(kind) + tail) == if kind.Named? then Some(kind.name) else None
  {
    if kind.Named? {
      var su := NameEntry(kind) + tail;
      assert su[2] == 5 + |kind.name| && su[..2] == NM && su[..su[2]] == NameEntry(kind);
    }
  }

  lemma CommonFound(kind: Kind, isDir: bool, rest: Bytes)
    ensures var rr: Bytes := [82, 82, 5, 1, if kind.Named? then 9 else 1];
            && FindEntry(rr + (PosixEntry(isDir) + rest), NM) == FindEntry(rest, NM)
            && FindEntry(rr + (PosixEntry(isDir) + rest), PX) == Some(PosixEntry(isDir))
            && FindEntry(rr + (PosixEntry(isDir) + rest), RR) == Some(rr)
  {
    hide PosixEntry, FindEntry;
    var rr: Bytes := [82, 82, 5, 1, if kind.Named? then 9 else 1];
    PosixHeader(isDir);
    SkipEntry(PosixEntry(isDir), rest, NM);
    SkipEntry(rr, PosixEntry(isDir) + rest, NM);
    SkipEntry(rr, PosixEntry(isDir) + rest, PX);
    assert rr[..2] == RR;
    TakeEntry(rr, PosixEntry(isDir) + rest);
    TakeEntry(PosixEntry(isDir), rest);
  }

  lemma RootFound(rest: Bytes, sig: Bytes)
    requires sig == NM || sig == PX || sig == RR
    ensures FindEntry(ROOT_ENTRIES + rest, sig) == FindEntry(rest, sig)
  {
    hide FindEntry;
    var sp: Bytes := [83, 80, 7, 1, 0xBE, 0xEF, 0];
    var er: Bytes := [69, 82, 18, 1, 10, 0, 0, 1, 82, 82, 73, 80, 95, 49, 57, 57, 49, 65];
    assert sp[..2][0] == 83 && er[..2][0] == 69;
    SkipEntry(er, rest, sig);
    SkipEntry(sp, er + rest, sig);
    Assoc(sp, er, rest);
  }

  lemma RootAnnounces(rest: Bytes)
    ensures AnnouncesRockRidge(ROOT_ENTRIES + rest)
  {
    hide FindEntry;
    var sp: Bytes := [83, 80, 7, 1, 0xBE, 0xEF, 0];
    var er: Bytes := [69, 82, 18, 1, 10, 0, 0, 1, 82, 82, 73, 80, 95, 49, 57, 57, 49, 65];
    assert sp[..2][0] == 83 && er[..2] == ER;
    SkipEntry(sp, er + rest, ER);
    TakeEntry(er, rest);
    Assoc(sp, er, rest);
    assert (sp + (er + rest))[..7] == sp;
    assert er[8..18] == [82, 82, 73, 80, 95, 49, 57, 57, 49, 65];
  }

  lemma NothingAnnounced(rr: Bytes, rest: Bytes)
    requires |rr| == 5 && rr[0] == 82
    ensures !AnnouncesRockRidge(rr + rest)
  {
    hide FindEntry;
    if |rr + rest| >= 7 { assert (rr + rest)[..7][0] == 82; }
  }

  lemma BothReadsBack(v: nat)
    requires v < U32
    ensures ReadBoth(Both32(v)) == Some(v)
  {
    hide UnLE, UnBE, LE, BE;
    Widths();
    UnLEofLE(v, 4);
    UnBEofBE(v, 4);
    assert Both32(v)[..4] == LE(v, 4) && Both32(v)[4..] == BE(v, 4);
  }

  lemma PosixReadsBack(isDir: bool)
    ensures PosixOf(PosixEntry(isDir)) == Some(PosixFor(isDir))
  {
    hide ReadBoth, Both32;
    var p, px := PosixFor(isDir), PosixEntry(isDir);
    BothReadsBack(p.mode);
    BothReadsBack(p.links);
    BothReadsBack(0);
    assert px[4..12] == Both32(p.mode) && px[12..20] == Both32(p.links);
    assert px[20..28] == Both32(0) && px[28..36] == Both32(0);
  }

  lemma EntriesFound(kind: Kind, isDir: bool, tail: Bytes)
    requires |tail| <= 1 && (kind.Named? ==> |kind.name| <= 250)
    ensures NameIn(SystemUse(kind, isDir) + tail) == if kind.Named? then Some(kind.name) else None
    ensures PosixIn(SystemUse(kind, isDir) + tail) == Some(PosixFor(isDir))
    ensures Listed(SystemUse(kind, isDir) + tail) == Some(if kind.Named? then 9 else 1)
    ensures AnnouncesRockRidge(SystemUse(kind, isDir) + tail) <==> kind == Self(true)
  {
    hide FindEntry, PosixEntry, PosixOf, AnnouncesRockRidge;
    var rr: Bytes, px := [82, 82, 5, 1, if kind.Named? then 9 else 1], PosixEntry(isDir);
    var rest := NameEntry(kind) + tail;
    NameEntryFound(kind, tail);
    CommonFound(kind, isDir, rest);
    RootFound(rr + (px + rest), NM);
    RootFound(rr + (px + rest), PX);
    RootFound(rr + (px + rest), RR);
    RootAnnounces(rr + (px + rest));
    NothingAnnounced(rr, px + rest);
    PosixReadsBack(isDir);
    Regroup(if kind == Self(true) then ROOT_ENTRIES else [], rr, px, NameEntry(kind), tail);
  }

  lemma Regroup(a: Bytes, b: Bytes, c: Bytes, d: Bytes, e: Bytes)
    ensures a + b + c + d + e == a + (b + (c + (d + e)))
    ensures [] + (b + (c + (d + e))) == b + (c + (d + e))
  {
    Assoc(a + b + c, d, e);
    Assoc(a + b, c, d + e);
    Assoc(a, b, c + (d + e));
  }

  lemma PosixHeader(isDir: bool)
    ensures var px := PosixEntry(isDir); |px| == 36 && px[..2] == PX && px[2] == 36
  {
  }

  /** The reader steps over an entry with another signature ... */
  lemma SkipEntry(e: Bytes, rest: Bytes, sig: Bytes)
    requires |e| >= 5 && e[2] == |e| && e[..2] != sig
    ensures FindEntry(e + rest, sig) == FindEntry(rest, sig)
  {
    assert (e + rest)[|e|..] == rest && (e + rest)[..2] == e[..2];
  }

  /** ... and stops at one with the signature it looks for. */
  lemma TakeEntry(e: Bytes, rest: Bytes)
    requires |e| >= 5 && e[2] == |e|
    ensures FindEntry(e + rest, e[..2]) == Some(e)
  {
    assert (e + rest)[..|e|] == e && (e + rest)[..2] == e[..2];
  }

  lemma FixedReadsBack(r: Record, time: Bytes, rl: nat, idLen: byte)
    requires |time| == 7 && r.extent < U32 && r.size < U32
    ensures var b := Fixed(r, time, rl, idLen);
            && b[0] == rl % 256 && ReadBoth(b[2..10]) == Some(r.extent) && ReadBoth(b[10..18]) == Some(r.size)
            && b[25] == Flags(r) && ReadBoth(b[28..32]) == Some(1) && b[32] == idLen
  {
    hide Both32, ReadBoth;
    var b := Fixed(r, time, rl, idLen);
    BothReadsBack(r.extent);
    BothReadsBack(r.size);
    ShortReads(1, 0);
    assert b[2..10] == Both32(r.extent) && b[10..18] == Both32(r.size) && b[28..32] == [1, 0, 0, 1];
  }

  lemma ShortReads(a: byte, b: byte)
    ensures ReadBoth([a, b, b, a]) == Some(a as nat + 256 * b as nat)
  {
    var v: Bytes := [a, b, b, a];
    assert v[..2] == [a, b] && v[2..] == [b, a] && [a, b][1..] == [b] && [b][1..] == [];
    assert [b, a][..1] == [b] && [b][..0] == [];
    assert UnLE([b]) == b as nat && UnBE([b]) == b as nat;
  }

  /** Reading back any record whose length fits in its length byte. */
  lemma RecordReadsBack(r: Record, time: Bytes)
    requires |time| == 7 && r.extent < U32 && r.size < U32 && RecordLength(r.kind, r.isDir) < 256
    ensures ReadRecord(Encode(r, time)) == Some(EntryOf(r))
    ensures Encode(r, time)[0] == RecordLength(r.kind, r.isDir) > 0
  {
    hide NameIn, PosixIn, Listed, AnnouncesRockRidge, SystemUse, Identifier, Fixed, ReadBoth, Flags, PosixFor,
      ReadRecord,
      RecordLength, Rounded;
    FlagsRead(r);
    LengthFits(r.kind, r.isDir);
    var id, su := Identifier(r.kind, r.isDir), SystemUse(r.kind, r.isDir);
    var pad := (33 + |id|) % 2;
    var tail := Zeros((33 + |id| + pad + |su|) % 2);
    var rl := RecordLength(r.kind, r.isDir);
    var f := Fixed(r, time, rl, |id|);
    FixedReadsBack(r, time, rl, |id|);
    EntriesFound(r.kind, r.isDir, tail);
    EncodedParts(f, id, pad, su + tail);
    ReadsParts(Encode(r, time), id, su + tail);
  }

  /** The time a record was given is where section 9.1.5 of ECMA-119 has it. */
  lemma TimeReadsBack(r: Record, time: Bytes)
    requires |time| == 7
    ensures Encode(r, time)[18..25] == time
  {
    hide Identifier, SystemUse, RecordLength, Both32, Flags;
    var id := Identifier(r.kind, r.isDir);
    var f := Fixed(r, time, RecordLength(r.kind, r.isDir), |id|);
    assert f[18..25] == time && Encode(r, time)[..33] == f;
    assert Encode(r, time)[18..25] == Encode(r, time)[..33][18..25];
  }

  lemma FlagsRead(r: Record)
    ensures Flags(r) / 2 % 2 == 1 <==> r.isDir
    ensures Flags(r) / 128 == 1 <==> r.multi
  {
  }

  lemma ReadsParts(b: Bytes, id: Bytes, su: Bytes)
    requires |b| >= 34 && 33 + |id| + (33 + |id|) % 2 <= |b| && b[32] == |id| && b[33..33 + |id|] == id
    requires b[33 + |id| + (33 + |id|) % 2..] == su && ReadBoth(b[28..32]) == Some(1)
    requires ReadBoth(b[2..10]).Some? && ReadBoth(b[10..18]).Some? && PosixIn(su).Some?
    ensures ReadRecord(b) == Some(Entry(id, NameIn(su), ReadBoth(b[2..10]).value, ReadBoth(b[10..18]).value,
                                        b[25] / 2 % 2 == 1, b[25] / 128 == 1, PosixIn(su).value,
                                        Listed(su), AnnouncesRockRidge(su)))
  {
    hide NameIn, PosixIn, Listed, AnnouncesRockRidge, ReadBoth;
  }

  lemma EncodedParts(f: Bytes, id: Bytes, pad: nat, su: Bytes)
    requires |f| == 33
    ensures var b := f + (id + Zeros(pad)) + su;
            && b[2..10] == f[2..10] && b[10..18] == f[10..18] && b[28..32] == f[28..32]
            && b[25] == f[25] && b[32] == f[32] && b[0] == f[0]
            && b[33..33 + |id|] == id && b[33 + |id| + pad..] == su
  {
    var b := f + (id + Zeros(pad)) + su;
    assert b[..33] == f;
    assert b[2..10] == b[..33][2..10] && b[10..18] == b[..33][10..18] && b[28..32] == b[..33][28..32];
  }

  // ---------- names that are too long ----------

  /** A name of 145 to 216 bytes: the length byte wraps to at most 70, and the record cut there cannot
      be read. */
  lemma LongRecord(r: Record, time: Bytes)
    requires |time| == 7 && r.kind.Named? && 144 < |r.kind.name| <= 216
    ensures var b := Encode(r, time);
            && 256 <= |b| <= 326 && b[0] as int == |b| - 256
            && ReadRecord(b[..b[0]]) == None
  {
    hide NameIn, FindEntry, SystemUse, Identifier, Fixed, ReadBoth, IsoName;
    LengthFits(r.kind, r.isDir);
    SystemUseLength(r.kind, r.isDir);
    LongIdentifier(r.kind.name, r.isDir);
    var id := Identifier(r.kind, r.isDir);
    var f := Fixed(r, time, RecordLength(r.kind, r.isDir), |id|);
    FixedHeader(r, time, RecordLength(r.kind, r.isDir), |id|);
    var b := Encode(r, time);
    assert b[..33] == f;
    assert b[0] == f[0] && b[32] == f[32];
    TooShort(b[..b[0]]);
  }

  lemma FixedHeader(r: Record, time: Bytes, rl: nat, idLen: byte)
    requires |time| == 7
    ensures Fixed(r, time, rl, idLen)[0] == rl % 256 && Fixed(r, time, rl, idLen)[32] == idLen
  {
    hide LE, BE;
  }

  /** No room for PX behind a 30-byte identifier. */
  lemma TooShort(b: Bytes)
    requires |b| <= 70 && (|b| > 32 ==> b[32] == 30)
    ensures ReadRecord(b) == None
  {
    hide FindEntry, NameIn, ReadBoth, Listed, AnnouncesRockRidge;
  }

  /** No record yields a name of more than 216 bytes. */
  lemma NamesAreBounded(b: Bytes)
    requires |b| < 256
    ensures ReadRecord(b).Some? && ReadRecord(b).value.name.Some? ==> |ReadRecord(b).value.name.value| <= 216
  {
    hide FindEntry, ReadBoth, PosixIn, Listed, AnnouncesRockRidge;
  }

  // ---------- multi-extent files ----------

  const MAX_EXTENT: nat := 0xFFFF_F800

  datatype Span = Span(off: nat, len: nat)

  /** Pieces of `off..size`: at least one, each at a sector boundary and of at most MAX_EXTENT bytes,
      each starting where the one before ends. */
  ghost predicate Tiles(spans: seq<Span>, off: nat, size: nat) {
    && spans != [] && spans[0].off == off && spans[|spans| - 1].off + spans[|spans| - 1].len == size
    && (forall i | 0 <= i < |spans| :: spans[i].off % SECTOR == 0 && spans[i].len <= MAX_EXTENT)
    && (forall i | 0 < i < |spans| :: spans[i].off == spans[i - 1].off + spans[i - 1].len)
  }

  lemma {:induction false} SpansTile(off: nat, size: nat)
    requires off <= size && off % SECTOR == 0
    ensures Tiles(SpansFrom(off, size), off, size)
    decreases size - off
  {
    if size - off > MAX_EXTENT {
      assert (off + MAX_EXTENT) % SECTOR == 0;
      SpansTile(off + MAX_EXTENT, size);
    }
  }

  /** extentSpans. */
  method ExtentSpans(size: nat) returns (spans: seq<Span>)
    ensures spans == SpansFrom(0, size) && Tiles(spans, 0, size)
  {
    SpansTile(0, size);
    hide SpansFrom;
    SpansStep(0, size);
    if size <= MAX_EXTENT { return [Span(0, size)]; }
    spans := [];
    var off := 0;
    while off < size
      invariant off < size ==> SpansFrom(0, size) == spans + SpansFrom(off, size)
      invariant off >= size ==> SpansFrom(0, size) == spans
      decreases size - off
    {
      SpansStep(off, size);
      var n := size - off;
      if n > MAX_EXTENT { n := MAX_EXTENT; }
      spans := spans + [Span(off, n)];
      off := off + MAX_EXTENT;
    }
  }

  lemma SpansStep(off: nat, size: nat)
    requires off <= size
    ensures SpansFrom(off, size) == if size - off <= MAX_EXTENT then [Span(off, size - off)]
                                    else [Span(off, MAX_EXTENT)] + SpansFrom(off + MAX_EXTENT, size)
  {
  }

  function SpansFrom(off: nat, size: nat): (r: seq<Span>)
    requires off <= size
    ensures r != []
    decreases size - off
  {
    if size - off <= MAX_EXTENT then [Span(off, size - off)]
    else [Span(off, MAX_EXTENT)] + SpansFrom(off + MAX_EXTENT, size)
  }
}
