/** The store of `kdb.h`: the header and record layouts, the handle, and its
    lifecycle (open or create, validate, close), the two disk writes and the
    record fetch. The file is abstracted to an optional header followed by the
    records written so far. Every operation that touches the disk takes the
    outcome of that disk operation as an argument (`true` when it succeeds), and
    a disk operation that fails leaves the file as it was. */
module Store {
  import opened Options
  import opened Ints
  import opened ExtReal

  const VERSION_SIZE: nat := 4
  const NAME_SIZE: nat := 10

  /** The version tag: the magic `KDB` followed by the format revision 1. */
  const VERSION: seq<char> := ['K', 'D', 'B', 1 as char]

  /** A version tag is exactly `VERSION_SIZE` characters. */
  type Tag = v: seq<char> | |v| == 4 witness [0 as char, 0 as char, 0 as char, 0 as char]

  /** A stored name: at most `NAME_SIZE` characters, the rest of the field
      being zero padding. */
  type Name = s: string | |s| <= 10

  const NO_TAG: Tag := [0 as char, 0 as char, 0 as char, 0 as char]

  const USE_DOUBLE: bv16 := 1
  const USE_LONG_DOUBLE: bv16 := 2
  const VARIANCE_CALCULATED: bv16 := 4
  const MEDIAN_CALCULATED: bv16 := 8

  /** The value type a build of the engine is compiled for. */
  datatype Precision = Single | Double | LongDouble

  /** The flag bit a build writes into a file it creates; a float build writes none. */
  function PrecisionFlag(p: Precision): bv16 {
    match p
    case Single => 0
    case Double => USE_DOUBLE
    case LongDouble => USE_LONG_DOUBLE
  }

  /** Whether a build accepts a file with these flags: a double or long double
      build needs its own bit, a float build checks nothing. */
  predicate Compatible(p: Precision, flags: bv16): (b: bool)
    ensures b <==> flags & PrecisionFlag(p) == PrecisionFlag(p)
  {
    match p
    case Single => true
    case Double => flags & USE_DOUBLE != 0
    case LongDouble => flags & USE_LONG_DOUBLE != 0
  }

  datatype Header = Header(
    version: Tag,
    name: Name,
    flags: bv16,
    count: U32,
    sum: real,
    average: real,
    min: EReal,
    max: EReal,
    variance: EReal,
    median: EReal)

  /** One sample, with the running sum of all values up to and including it. */
  datatype Record = Record(timestamp: U64, value: real, sum: real)

  const ZERO_RECORD: Record := Record(0, 0.0, 0.0)

  /** The file: a header, absent when the file is too short to hold one, then
      the records in the order they were appended. */
  datatype File = File(header: Option<Header>, records: seq<Record>)

  /** A handle: null, or the handle's fields. `file` is the open file,
      if any. */
  datatype Handle = Null | Db(initialized: bool, file: Option<File>, header: Header)

  /** The header of a closed handle: zero version and name, no flags, nothing
      counted, min and variance and median at +∞ and max at −∞. */
  const CLEARED: Header := Header(NO_TAG, "", 0, 0, 0.0, 0.0, PosInf, NegInf, PosInf, PosInf)

  const CLOSED: Handle := Db(false, None, CLEARED)

  /** The header of a newly created file: the current version, the name, the
      build's precision bit and no other flag, and nothing counted. */
  function Fresh(name: Name, p: Precision): (h: Header)
    ensures h.version == VERSION && h.name == name && Compatible(p, h.flags)
    ensures h.flags & (USE_DOUBLE | USE_LONG_DOUBLE) == PrecisionFlag(p)
    ensures h.flags & (VARIANCE_CALCULATED | MEDIAN_CALCULATED) == 0
    ensures h.count == 0 && h.sum == 0.0 && h.average == 0.0
    ensures h.min == PosInf && h.max == NegInf && h.variance == PosInf && h.median == PosInf
  {
    CLEARED.(version := VERSION, name := name, flags := PrecisionFlag(p))
  }

  predicate Ready(db: Handle) {
    db.Db? && db.initialized
  }

  /** What the file system offers under the file name: no file, a file that
      cannot be opened, or an existing file. */
  datatype Disk = Absent | Inaccessible | Existing(file: File)

  datatype Step = Step(ok: bool, db: Handle)

  datatype Fetch = Fetch(ok: bool, record: Record)

  // ---------------------------------------------------------------------------
  // Closing

  /** `kdb_finalize`: close the file and clear the handle. A null handle is
      already closed; when the file does not close, nothing changes. */
  function Finalize(db: Handle, closeOk: bool): (r: Step)
    ensures db.Null? ==> r == Step(true, Null)
    ensures r.ok <==> db.Null? || db.file.None? || closeOk
    ensures !r.ok ==> r.db == db
    ensures r.ok && db.Db? ==> r.db == CLOSED
  {
    if db.Null? then Step(true, Null)
    else if db.file.Some? && !closeOk then Step(false, db)
    else Step(true, CLOSED)
  }

  /** Closing twice is closing once: the second close finds no file and
      changes nothing. */
  lemma FinalizeIsIdempotent(db: Handle, closeOk: bool, closeOk2: bool)
    requires Finalize(db, closeOk).ok
    ensures Finalize(Finalize(db, closeOk).db, closeOk2) == Finalize(db, closeOk)
  {
  }

  // ---------------------------------------------------------------------------
  // Opening

  /** The validation of an existing file's header: it must be present (every
      field read in full), carry the magic and version 1, hold exactly the
      name asked for, and suit the build's precision. The header is then
      taken as it is. */
  function Parse(header: Option<Header>, name: string, p: Precision): (r: Option<Header>)
    ensures r.Some? <==>
              && header.Some?
              && header.value.version == VERSION
              && header.value.name == name
              && Compatible(p, header.value.flags)
    ensures r.Some? ==> r == header
  {
    if header.None? then None
    else
      var h := header.value;
      if h.version[..3] != "KDB" then None
      else if h.version[3] != 1 as char then None
      else if h.name != name then None
      else if !Compatible(p, h.flags) then None
      else
        assert h.version == h.version[..3] + [h.version[3]];
        Some(h)
  }

  /** `kdb_initialize`. A null handle fails and an open one is left as it is.
      Otherwise the handle is cleared first; a name longer than `NAME_SIZE`
      fails; a missing file is created (`createOk`) with a fresh header that is
      written out (`writeOk`); an existing file is opened if its header passes
      `Parse`. Every failure leaves the handle closed. */
  function Initialize(db: Handle, disk: Disk, name: string, p: Precision,
                      createOk: bool, writeOk: bool): (r: Step)
    ensures db.Null? ==> r == Step(false, Null)
    ensures Ready(db) ==> r == Step(true, db)
    ensures db.Db? && !db.initialized ==>
              (r.ok <==> |name| <= NAME_SIZE &&
                         ((disk.Absent? && createOk && writeOk) ||
                          (disk.Existing? && Parse(disk.file.header, name, p).Some?)))
    ensures db.Db? && !r.ok ==> r.db == CLOSED
    ensures r.ok ==> Ready(r.db)
    ensures r.ok && !Ready(db) ==> r.db.file.Some? && r.db.file.value.header == Some(r.db.header)
    ensures r.ok && !Ready(db) && disk.Absent? ==>
              r.db.header == Fresh(name, p) && r.db.file == Some(File(Some(Fresh(name, p)), []))
    ensures r.ok && !Ready(db) && disk.Existing? ==>
              r.db.file == Some(disk.file) && Some(r.db.header) == disk.file.header
  {
    if db.Null? then Step(false, Null)
    else if db.initialized then Step(true, db)
    else if |name| > NAME_SIZE then Step(false, CLOSED)
    else
      match disk
      case Inaccessible => Step(false, CLOSED)
      case Absent =>
        if !createOk then Step(false, CLOSED)
        else
          var created := Db(false, Some(File(None, [])), Fresh(name, p));
          var w := WriteHeader(created, writeOk);
          if !w.ok then Step(false, CLOSED)
          else Step(true, w.db.(initialized := true))
      case Existing(f) =>
        match Parse(f.header, name, p)
        case None => Step(false, CLOSED)
        case Some(h) => Step(true, Db(true, Some(f), h))
  }

  // ---------------------------------------------------------------------------
  // Writing

  /** `kdb_write_header`: store the in-memory header at the start of the file.
      It checks only that there is a handle with an open file, not that the
      handle is initialized, so `kdb_initialize` uses it before it marks the
      handle open. It fails, changing nothing, when the write fails. */
  function WriteHeader(db: Handle, ok: bool): (r: Step)
    ensures r.ok <==> db.Db? && db.file.Some? && ok
    ensures !r.ok ==> r.db == db
    ensures r.ok ==> r.db == db.(file := Some(File(Some(db.header), db.file.value.records)))
  {
    if db.Null? || db.file.None? || !ok then Step(false, db)
    else Step(true, db.(file := Some(db.file.value.(header := Some(db.header)))))
  }

  /** `kdb_write_data`: append a record at the end of the file. It fails,
      changing nothing, on a closed handle or when the write fails. */
  function WriteData(db: Handle, rec: Record, ok: bool): (r: Step)
    ensures r.ok <==> Ready(db) && db.file.Some? && ok
    ensures !r.ok ==> r.db == db
    ensures r.ok ==> r.db == db.(file := Some(File(db.file.value.header, db.file.value.records + [rec])))
  {
    if !Ready(db) || db.file.None? || !ok then Step(false, db)
    else Step(true, db.(file := Some(db.file.value.(records := db.file.value.records + [rec]))))
  }

  // ---------------------------------------------------------------------------
  // Reading

  /** `kdb_get_data`: the record at `index`. A closed handle fails; an index
      outside `[0, count)` succeeds with a zero record; a record the file does
      not hold in full (the header counts more records than were written) is
      a failed read. */
  function GetData(db: Handle, index: I64): (r: Fetch)
    ensures !Ready(db) ==> !r.ok
    ensures Ready(db) && !(0 <= index < db.header.count) ==> r.ok
    ensures !r.ok || !(0 <= index < db.header.count) ==> r.record == ZERO_RECORD
    ensures Ready(db) && 0 <= index < db.header.count ==>
              (r.ok <==> db.file.Some? && index < |db.file.value.records|)
    ensures r.ok && 0 <= index < db.header.count ==> r.record == db.file.value.records[index]
  {
    if !Ready(db) then Fetch(false, ZERO_RECORD)
    else if index < 0 || index >= db.header.count then Fetch(true, ZERO_RECORD)
    else if db.file.None? || index >= |db.file.value.records| then Fetch(false, ZERO_RECORD)
    else Fetch(true, db.file.value.records[index])
  }

  /** `kdb_count`, `kdb_sum`, `kdb_average`, `kdb_min`, `kdb_max`: the header's
      field, or the neutral value on a handle that is not open. */
  function Count(db: Handle): (c: U32)
    ensures !Ready(db) ==> c == 0
  {
    if Ready(db) then db.header.count else 0
  }

  function Sum(db: Handle): (s: real)
    ensures !Ready(db) ==> s == 0.0
  {
    if Ready(db) then db.header.sum else 0.0
  }

  function Average(db: Handle): (a: real)
    ensures !Ready(db) ==> a == 0.0
  {
    if Ready(db) then db.header.average else 0.0
  }

  function Minimum(db: Handle): (m: EReal)
    ensures !Ready(db) ==> m == PosInf
  {
    if Ready(db) then db.header.min else PosInf
  }

  function Maximum(db: Handle): (m: EReal)
    ensures !Ready(db) ==> m == NegInf
  {
    if Ready(db) then db.header.max else NegInf
  }

  // ---------------------------------------------------------------------------
  // Properties of the lifecycle

  /** A closed handle answers every accessor with its neutral value, and a
      freshly created store answers with the same values while open. */
  lemma ClosedAndFreshAreNeutral(db: Handle, closeOk: bool, name: Name, p: Precision)
    requires Finalize(db, closeOk).ok
    ensures var c := Finalize(db, closeOk).db;
            Count(c) == 0 && Sum(c) == 0.0 && Average(c) == 0.0 &&
            Minimum(c) == PosInf && Maximum(c) == NegInf
    ensures var f := Db(true, Some(File(Some(Fresh(name, p)), [])), Fresh(name, p));
            Count(f) == 0 && Sum(f) == 0.0 && Average(f) == 0.0 &&
            Minimum(f) == PosInf && Maximum(f) == NegInf
  {
  }

  /** A build opens the files it creates: the fresh header carries the
      version, the name and the build's own precision bit. */
  lemma CreatedFileReopens(name: Name, p: Precision)
    ensures Parse(Some(Fresh(name, p)), name, p) == Some(Fresh(name, p))
  {
  }

  /** A double build and a long double build reject each other's files, and
      a float build accepts both. */
  lemma PrecisionMismatchIsRejected(name: Name)
    ensures Parse(Some(Fresh(name, LongDouble)), name, Double).None?
    ensures Parse(Some(Fresh(name, Double)), name, LongDouble).None?
    ensures Parse(Some(Fresh(name, Double)), name, Single).Some?
    ensures Parse(Some(Fresh(name, LongDouble)), name, Single).Some?
  {
    assert USE_LONG_DOUBLE & USE_DOUBLE == 0;
    assert USE_DOUBLE & USE_LONG_DOUBLE == 0;
  }

  /** Close then reopen: a handle whose file holds its header, opened under
      the header's name by a build whose precision the flags admit, reopens
      with the same header and the same records. */
  lemma ReopenRoundTrip(db: Handle, closeOk: bool, p: Precision, createOk: bool, writeOk: bool)
    requires Ready(db) && db.file.Some? && db.file.value.header == Some(db.header)
    requires db.header.version == VERSION && Compatible(p, db.header.flags)
    requires Finalize(db, closeOk).ok
    ensures var r := Initialize(Finalize(db, closeOk).db, Existing(db.file.value),
                                db.header.name, p, createOk, writeOk);
            r.ok && r.db == db
  {
  }

}
