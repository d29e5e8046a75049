/** The two programs at the ends of GET_SYS_FILES: the backend filling the response buffer and the
    guest reading it, each held to the stream both are about. */
module SysFilesIo {
  import opened Basics
  import opened Wire
  import opened Records
  import opened SysFiles

  // ---------------------------------------------------------------------
  // What goes into a buffer of a given size

  /** As many files as leave room for the terminator. */
  function FilesSent(files: seq<File>, room: nat): (r: seq<Byte>)
    ensures |r| <= room
  {
    if room < 8 then []
    else
      FittingFits(FileRecord, files, room - 8);
      FilesSection(files[..Fitting(FileRecord, files, room - 8)])
  }

  /** The number of nodes there are, and as many records as fit. */
  function DriSent(devs: seq<Dri>, room: nat): (r: seq<Byte>)
    ensures |r| <= room
  {
    if room < 4 then []
    else
      FittingFits(DriRecord, devs, room - 4);
      Words([AsU32(|devs|)]) + Concat(DriRecord, devs[..Fitting(DriRecord, devs, room - 4)])
  }

  /** A whole section or none of it. */
  function WholeOrNone(section: seq<Byte>, room: nat): (r: seq<Byte>)
    ensures |r| <= room
  {
    if |section| <= room then section else []
  }

  /** The files sent, with the terminator, fit, and with one more they would not. */
  lemma FilesSentAreMost(files: seq<File>, room: nat) returns (n: nat)
    requires room >= 8
    ensures n <= |files| && FilesSent(files, room) == FilesSection(files[..n]) && |FilesSection(files[..n])| <= room
    ensures n < |files| ==> |FilesSection(files[..n + 1])| > room
  {
    n := Fitting(FileRecord, files, room - 8);
    FittingFits(FileRecord, files, room - 8);
  }

  /** The nodes sent, behind the number of all of them, fit, and with one more they would not. */
  lemma NodesSentAreMost(devs: seq<Dri>, room: nat) returns (n: nat)
    requires room >= 4
    ensures n <= |devs| && DriSent(devs, room) == Words([AsU32(|devs|)]) + Concat(DriRecord, devs[..n])
    ensures 4 + |Concat(DriRecord, devs[..n])| <= room
    ensures n < |devs| ==> 4 + |Concat(DriRecord, devs[..n + 1])| > room
  {
    n := Fitting(DriRecord, devs, room - 4);
    FittingFits(DriRecord, devs, room - 4);
  }

  // ---------------------------------------------------------------------
  // The backend

  method WriteFile(buf: array<Byte>, at: nat, f: File) returns (off: nat)
    requires at + |FileRecord(f)| <= buf.Length
    modifies buf
    ensures off == at + |FileRecord(f)| && buf[..] == Over(old(buf[..]), at, FileRecord(f))
  {
    hide Over, LeBytes;
    ghost var was := buf[..];
    var head := [AsU32(|f.path|), AsU32(|f.content|)];
    off := PutWords(buf, at, head);
    Copy(buf, off, f.path);
    OverTwice(was, at, Words(head), f.path);
    off := off + |f.path|;
    Copy(buf, off, f.content);
    OverTwice(was, at, Words(head) + f.path, f.content);
    off := off + |f.content|;
  }

  /** The file entries, stopping at the first for which there is no room, and the terminator. */
  method WriteFiles(buf: array<Byte>, files: seq<File>) returns (off: nat)
    modifies buf
    ensures off == |FilesSent(files, buf.Length)| && off <= buf.Length
    ensures buf[..] == Over(old(buf[..]), 0, FilesSent(files, buf.Length))
  {
    ghost var n;
    off, n := WriteFileEntries(buf, files);
    if off + 8 <= buf.Length {
      off := Terminate(buf, off, Concat(FileRecord, files[..n]), old(buf[..]));
    }
  }

  method Terminate(buf: array<Byte>, at: nat, ghost files: seq<Byte>, ghost was: seq<Byte>) returns (off: nat)
    requires at == |files| && at + 8 <= buf.Length == |was| && buf[..] == Over(was, 0, files)
    modifies buf
    ensures off == at + 8 && buf[..] == Over(was, 0, files + Words([0, 0]))
  {
    off := PutWords(buf, at, [0, 0]);
    OverTwice(was, 0, files, Words([0, 0]));
  }

  method WriteFileEntries(buf: array<Byte>, files: seq<File>) returns (off: nat, ghost n: nat)
    modifies buf
    ensures n <= |files| && off == |Concat(FileRecord, files[..n])| <= buf.Length
    ensures buf[..] == Over(old(buf[..]), 0, Concat(FileRecord, files[..n]))
    ensures if buf.Length < 8 then n == 0 else n == Fitting(FileRecord, files, buf.Length - 8) && off + 8 <= buf.Length
  {
    ghost var was := buf[..];
    off := 0;
    LaidNone(was, 0, FileRecord, files);
    for i := 0 to |files|
      invariant Laid(was, buf[..], 0, FileRecord, files, i, off)
      invariant i > 0 || 8 <= buf.Length ==> off + 8 <= buf.Length
    {
      var need := 8 + |files[i].path| + |files[i].content|;
      if off + need + 8 > buf.Length {
        if buf.Length >= 8 { LaidAll(was, buf[..], 0, FileRecord, files, i, off, buf.Length - 8); }
        return off, i;
      }
      LaidOne(was, buf[..], 0, FileRecord, files, i, off);
      off := WriteFile(buf, off, files[i]);
    }
    n := |files|;
    if buf.Length >= 8 { LaidAll(was, buf[..], 0, FileRecord, files, n, off, buf.Length - 8); }
  }

  method WriteNode(buf: array<Byte>, at: nat, d: Dri) returns (off: nat)
    requires at + |DriRecord(d)| <= buf.Length
    modifies buf
    ensures off == at + |DriRecord(d)| && buf[..] == Over(old(buf[..]), at, DriRecord(d))
  {
    ghost var was := buf[..];
    var ws := [AsU32(|d.name|), d.major, d.minor, d.slot] + d.info;
    off := PutWords(buf, at, ws);
    Copy(buf, off, d.name);
    OverTwice(was, at, Words(ws), d.name);
    off := off + |d.name|;
  }

  /** The DRI section. The count is of all the nodes, even when not all the records fit. */
  method WriteDri(buf: array<Byte>, at: nat, devs: seq<Dri>) returns (off: nat)
    requires at <= buf.Length
    modifies buf
    ensures off == at + |DriSent(devs, buf.Length - at)| <= buf.Length
    ensures buf[..] == Over(old(buf[..]), at, DriSent(devs, buf.Length - at))
  {
    hide Over, DriRecord, LeBytes, AsU32, Fitting, Laid, Concat;
    ghost var was := buf[..];
    if buf.Length - at < 4 {
      OverNothing(was, at);
      return at;
    }
    off := PutWords(buf, at, [AsU32(|devs|)]);
    ghost var n;
    off, n := WriteNodes(buf, off, devs);
    OverTwice(was, at, Words([AsU32(|devs|)]), Concat(DriRecord, devs[..n]));
  }

  method WriteNodes(buf: array<Byte>, at: nat, devs: seq<Dri>) returns (off: nat, ghost n: nat)
    requires at <= buf.Length
    modifies buf
    ensures n == Fitting(DriRecord, devs, buf.Length - at)
    ensures off == at + |Concat(DriRecord, devs[..n])| <= buf.Length
    ensures buf[..] == Over(old(buf[..]), at, Concat(DriRecord, devs[..n]))
  {
    ghost var was := buf[..];
    off := at;
    LaidNone(was, at, DriRecord, devs);
    for i := 0 to |devs|
      invariant Laid(was, buf[..], at, DriRecord, devs, i, off)
    {
      var need := 16 + 4 * 9 + |devs[i].name|;
      if off + need > buf.Length {
        LaidAll(was, buf[..], at, DriRecord, devs, i, off, buf.Length - at);
        return off, i;
      }
      LaidOne(was, buf[..], at, DriRecord, devs, i, off);
      off := WriteNode(buf, off, devs[i]);
    }
    n := |devs|;
    LaidAll(was, buf[..], at, DriRecord, devs, n, off, buf.Length - at);
  }

  /** The allocation sizes, all or none. */
  method WriteSizes(buf: array<Byte>, at: nat, h: Host) returns (off: nat)
    requires at <= buf.Length
    modifies buf
    ensures off == at + |WholeOrNone(SizesPart(h), buf.Length - at)|
    ensures buf[..] == Over(old(buf[..]), at, WholeOrNone(SizesPart(h), buf.Length - at))
  {
    ghost var was := buf[..];
    OverNothing(was, at);
    if h.classes.None? { return at; }
    var rows := WithParams(h.classes.value);
    SizesCount(rows);
    if buf.Length - at < 8 + |rows| * 8 { return at; }
    off := PutWords(buf, at, [ALLOC_SIZE_MAGIC, AsU32(|rows|)]);
    OverTwice(was, at, Words([ALLOC_SIZE_MAGIC, AsU32(|rows|)]), Concat(SizeRecord, rows));
    off := WriteSizeRows(buf, off, rows);
  }

  method WriteSizeRows(buf: array<Byte>, at: nat, rows: seq<ClassSize>) returns (off: nat)
    requires at + |Concat(SizeRecord, rows)| <= buf.Length
    modifies buf
    ensures off == at + |Concat(SizeRecord, rows)|
    ensures buf[..] == Over(old(buf[..]), at, Concat(SizeRecord, rows))
  {
    ghost var was := buf[..];
    off := at;
    LaidNone(was, at, SizeRecord, rows);
    SizesCount(rows);
    for i := 0 to |rows|
      invariant off == at + 8 * i && Laid(was, buf[..], at, SizeRecord, rows, i, off)
    {
      LaidOne(was, buf[..], at, SizeRecord, rows, i, off);
      off := PutWords(buf, off, [rows[i].classId, rows[i].paramsSize]);
    }
    assert rows[..|rows|] == rows;
  }

  /** A row for every command with at most one descriptor. */
  method BuildRows(cmds: seq<HostUvm>) returns (rows: seq<UvmCmd>)
    ensures rows == Rows(cmds)
  {
    rows := [];
    for i := 0 to |cmds|
      invariant rows == Rows(cmds[..i])
    {
      RowsNext(cmds[..i], cmds[i]);
      assert cmds[..i + 1] == cmds[..i] + [cmds[i]];
      var c := cmds[i];
      if |c.fds| > 1 { continue; }
      var kind: U32, at: U32 := 0, 0;
      if |c.fds| == 1 { kind, at := KindWord(c.fds[0].kind), AsU32(c.fds[0].at); }
      rows := rows + [UvmCmd(c.num, c.paramsSize, kind, at)];
    }
    assert cmds[..|cmds|] == cmds;
  }

  method WriteUvm(buf: array<Byte>, at: nat, h: Host) returns (off: nat)
    requires at <= buf.Length
    modifies buf
    ensures off == at + |WholeOrNone(UvmPart(h), buf.Length - at)|
    ensures buf[..] == Over(old(buf[..]), at, WholeOrNone(UvmPart(h), buf.Length - at))
  {
    ghost var was := buf[..];
    OverNothing(was, at);
    if h.uvm.None? { return at; }
    var rows := BuildRows(h.uvm.value);
    UvmCount(rows);
    if buf.Length - at < 8 + |rows| * 16 { return at; }
    off := PutWords(buf, at, [UVM_CMD_MAGIC, AsU32(|rows|)]);
    OverTwice(was, at, Words([UVM_CMD_MAGIC, AsU32(|rows|)]), Concat(UvmRecord, rows));
    off := WriteUvmRows(buf, off, rows);
  }

  method WriteUvmRows(buf: array<Byte>, at: nat, rows: seq<UvmCmd>) returns (off: nat)
    requires at + |Concat(UvmRecord, rows)| <= buf.Length
    modifies buf
    ensures off == at + |Concat(UvmRecord, rows)|
    ensures buf[..] == Over(old(buf[..]), at, Concat(UvmRecord, rows))
  {
    ghost var was := buf[..];
    off := at;
    LaidNone(was, at, UvmRecord, rows);
    UvmCount(rows);
    for i := 0 to |rows|
      invariant off == at + 16 * i && Laid(was, buf[..], at, UvmRecord, rows, i, off)
    {
      LaidOne(was, buf[..], at, UvmRecord, rows, i, off);
      off := PutWords(buf, off, [rows[i].num, rows[i].paramsSize, rows[i].fdKind, rows[i].fdAt]);
    }
    assert rows[..|rows|] == rows;
  }

  method WriteOsdesc(buf: array<Byte>, at: nat, h: Host) returns (off: nat)
    requires at <= buf.Length
    modifies buf
    ensures off == at + |WholeOrNone(OsdescPart(h), buf.Length - at)|
    ensures buf[..] == Over(old(buf[..]), at, WholeOrNone(OsdescPart(h), buf.Length - at))
  {
    ghost var was := buf[..];
    OverNothing(was, at);
    if h.osdesc.None? { return at; }
    var words := OsdescWords(h.osdesc.value);
    if buf.Length - at < |words| * 4 { return at; }
    off := PutWords(buf, at, words);
  }

  /** What a buffer of this size gets: for GET_PROC_FILES the files alone. */
  function Sent(sys: bool, h: Host, room: nat): (r: seq<Byte>)
    ensures |r| <= room
  {
    var files := FilesSent(h.files, room);
    if sys then files + SysSent(h, room - |files|) else files
  }

  function SysSent(h: Host, room: nat): (r: seq<Byte>)
    ensures |r| <= room
  {
    var dri := DriSent(h.dri, room);
    dri + FromSizes(h, room - |dri|)
  }

  function FromSizes(h: Host, room: nat): (r: seq<Byte>)
    ensures |r| <= room
  {
    var sizes := WholeOrNone(SizesPart(h), room);
    sizes + FromUvm(h, room - |sizes|)
  }

  function FromUvm(h: Host, room: nat): (r: seq<Byte>)
    ensures |r| <= room
  {
    var uvm := WholeOrNone(UvmPart(h), room);
    uvm + WholeOrNone(OsdescPart(h), room - |uvm|)
  }

  method WriteFromUvm(buf: array<Byte>, at: nat, h: Host) returns (off: nat)
    requires at <= buf.Length
    modifies buf
    ensures off == at + |FromUvm(h, buf.Length - at)| && buf[..] == Over(old(buf[..]), at, FromUvm(h, buf.Length - at))
  {
    hide WholeOrNone, Over, UvmPart, OsdescPart;
    ghost var was := buf[..];
    off := WriteUvm(buf, at, h);
    OverTwice(was, at, WholeOrNone(UvmPart(h), buf.Length - at), WholeOrNone(OsdescPart(h), buf.Length - off));
    off := WriteOsdesc(buf, off, h);
  }

  method WriteFromSizes(buf: array<Byte>, at: nat, h: Host) returns (off: nat)
    requires at <= buf.Length
    modifies buf
    ensures off == at + |FromSizes(h, buf.Length - at)| && buf[..] == Over(old(buf[..]), at, FromSizes(h, buf.Length - at))
  {
    hide WholeOrNone, FromUvm, Over, SizesPart;
    ghost var was := buf[..];
    off := WriteSizes(buf, at, h);
    OverTwice(was, at, WholeOrNone(SizesPart(h), buf.Length - at), FromUvm(h, buf.Length - off));
    off := WriteFromUvm(buf, off, h);
  }

  /** The four sections GET_SYS_FILES has behind the files. */
  method WriteSys(buf: array<Byte>, at: nat, h: Host) returns (off: nat)
    requires at <= buf.Length
    modifies buf
    ensures off == at + |SysSent(h, buf.Length - at)| && buf[..] == Over(old(buf[..]), at, SysSent(h, buf.Length - at))
  {
    hide DriSent, FromSizes, Over;
    ghost var was := buf[..];
    off := WriteDri(buf, at, h.dri);
    OverTwice(was, at, DriSent(h.dri, buf.Length - at), FromSizes(h, buf.Length - off));
    off := WriteFromSizes(buf, off, h);
  }

  /** `handle_get_files`. */
  method HandleGetFiles(sys: bool, buf: array<Byte>, h: Host) returns (off: nat)
    modifies buf
    ensures off == |Sent(sys, h, buf.Length)|
    ensures buf[..] == Over(old(buf[..]), 0, Sent(sys, h, buf.Length))
  {
    ghost var was := buf[..];
    off := WriteFiles(buf, h.files);
    if sys {
      OverTwice(was, 0, FilesSent(h.files, buf.Length), SysSent(h, buf.Length - off));
      off := WriteSys(buf, off, h);
    }
  }

  // ---------------------------------------------------------------------
  // What arrives of it

  /** How many files and how many nodes a buffer of this size takes. */
  function FilesKept(h: Host, room: nat): (n: nat)
    ensures n <= |h.files|
  {
    if room < 8 then 0 else Fitting(FileRecord, h.files, room - 8)
  }

  function NodesKept(h: Host, room: nat): (n: nat)
    ensures n <= |h.dri|
  {
    var left := room - |FilesSent(h.files, room)|;
    if left < 4 then 0 else Fitting(DriRecord, h.dri, left - 4)
  }

  /** The host as the last three sections tell of it in this much room: each is there or left out. */
  function OnlySections(h: Host, room: nat): Host {
    var sizes := |SizesPart(h)| <= room;
    var left := if sizes then room - |SizesPart(h)| else room;
    var uvm := |UvmPart(h)| <= left;
    var more := if uvm then left - |UvmPart(h)| else left;
    h.(classes := if sizes then h.classes else None,
       uvm := if uvm then h.uvm else None,
       osdesc := if |OsdescPart(h)| <= more then h.osdesc else None)
  }

  lemma SectionsSent(h: Host, room: nat)
    ensures var s := OnlySections(h, room);
            FromSizes(h, room) == SizesPart(s) + (UvmPart(s) + OsdescPart(s))
  {
  }

  /** The host as a buffer of this size tells of it, when all its nodes fit behind the files. */
  function Told(h: Host, room: nat): Host {
    var files := FilesSent(h.files, room);
    var left := room - |files| - |DriSent(h.dri, room - |files|)|;
    OnlySections(h, left).(files := h.files[..FilesKept(h, room)])
  }

  lemma AllNodes(devs: seq<Dri>, room: nat)
    requires 4 <= room && Fitting(DriRecord, devs, room - 4) == |devs|
    ensures DriSent(devs, room) == DriSection(devs)
  {
    assert devs[..|devs|] == devs;
  }

  lemma SentIsStream(h: Host, room: nat)
    requires 8 <= room && 4 <= room - |FilesSent(h.files, room)| && NodesKept(h, room) == |h.dri|
    ensures Sent(true, h, room) == Stream(Told(h, room))
  {
    hide FilesSection, DriSection, DriSent, FromSizes, SizesPart, UvmPart, OsdescPart, OnlySections;
    var files := FilesSent(h.files, room);
    var left := room - |files|;
    var more := left - |DriSent(h.dri, left)|;
    AllNodes(h.dri, left);
    SectionsSent(h, more);
    SameSections(OnlySections(h, more), Told(h, room), h, more);
  }

  lemma SameSections(s: Host, t: Host, h: Host, room: nat)
    requires s == OnlySections(h, room) && t == s.(files := t.files)
    ensures SizesPart(s) == SizesPart(t) && UvmPart(s) == UvmPart(t) && OsdescPart(s) == OsdescPart(t)
    ensures t.dri == h.dri
  {
  }

  /** The buffer after `HandleGetFiles` has filled it from zeros. */
  ghost predicate FilledFrom(bs: seq<Byte>, h: Host) {
    bs == Sent(true, h, |bs|) + Zeros(|bs| - |Sent(true, h, |bs|)|)
  }

  /** Whatever the size of the buffer, if the nodes fit behind the files the guest reads exactly what
      it keeps of the files that fit and of the sections that do. A section that did not fit hides
      those behind it, though they are in the buffer. */
  lemma ReadsWhatFits(bs: seq<Byte>, h: Host)
    requires FilledFrom(bs, h) && 8 <= |bs| < ALLOC_SIZE_MAGIC && Sendable(h)
    requires 4 <= |bs| - |FilesSent(h.files, |bs|)| && NodesKept(h, |bs|) == |h.dri|
    ensures Read(bs) == Expected(Told(h, |bs|))
  {
    SentIsStream(h, |bs|);
    StillSendable(h, |bs|);
    StreamReadsBack(bs, Told(h, |bs|), |bs| - |Sent(true, h, |bs|)|);
  }

  lemma StillSendable(h: Host, room: nat)
    requires Sendable(h)
    ensures Sendable(Told(h, room))
  {
    forall f | f in h.files[..FilesKept(h, room)] ensures Named(f) {
      assert f in h.files;
    }
  }

  /** With room for all of it, all of it is sent. */
  lemma AllIsSent(h: Host, room: nat)
    requires |Stream(h)| <= room
    ensures Sent(true, h, room) == Stream(h) && Told(h, room) == h
    ensures 4 <= room - |FilesSent(h.files, room)| && NodesKept(h, room) == |h.dri|
  {
    AllFilesFit(h.files, room);
    AllNodesFit(h.dri, room - |FilesSection(h.files)|);
    SentIsStream(h, room);
  }

  lemma AllFilesFit(files: seq<File>, room: nat)
    requires |FilesSection(files)| <= room
    ensures 8 <= room && Fitting(FileRecord, files, room - 8) == |files|
    ensures FilesSent(files, room) == FilesSection(files) && files[..|files|] == files
  {
    hide FileRecord, Words;
    assert files[..|files|] == files;
    FittingIs(FileRecord, files, room - 8, |files|);
  }

  lemma AllNodesFit(devs: seq<Dri>, room: nat)
    requires |DriSection(devs)| <= room
    ensures 4 <= room && Fitting(DriRecord, devs, room - 4) == |devs|
    ensures DriSent(devs, room) == DriSection(devs)
  {
    hide DriRecord, Words;
    assert devs[..|devs|] == devs;
    FittingIs(DriRecord, devs, room - 4, |devs|);
  }

  /** Where no record stands the reader stops: the word there is nothing, or too long for a name. */
  lemma NoNodeHere(bs: seq<Byte>, p: nat, m: nat)
    requires p <= |bs| && (p + 52 <= |bs| ==> Read32(bs, p) == 0 || Read32(bs, p) > |bs|)
    ensures DriFrom(bs, p, m).0 == []
  {
    if p + 52 <= |bs| { assert ReadWords(bs, p, 13)[0] == Read32(bs, p); }
  }

  /** The first word of the three sections: a magic, or nothing. */
  lemma SectionWord(bs: seq<Byte>, p: nat, h: Host)
    requires At(bs, p, SizesPart(h) + (UvmPart(h) + OsdescPart(h))) && |bs| < ALLOC_SIZE_MAGIC && p + 4 <= |bs|
    requires Quiet(bs, p + |SizesPart(h)| + |UvmPart(h)| + |OsdescPart(h)|)
    ensures Read32(bs, p) == 0 || Read32(bs, p) > |bs|
  {
    var q := p + |SizesPart(h)|;
    AtBoth(bs, p, SizesPart(h), UvmPart(h) + OsdescPart(h));
    AtBoth(bs, q, UvmPart(h), OsdescPart(h));
    if h.classes.Some? {
      SectionStarts(bs, p, ALLOC_SIZE_MAGIC, |WithParams(h.classes.value)|, Concat(SizeRecord, WithParams(h.classes.value)));
    } else if h.uvm.Some? {
      SectionStarts(bs, p, UVM_CMD_MAGIC, |Rows(h.uvm.value)|, Concat(UvmRecord, Rows(h.uvm.value)));
    } else if h.osdesc.Some? {
      WordAt(bs, p, OsdescWords(h.osdesc.value), 0);
    } else {
      QuietWord(bs, p);
    }
  }

  lemma SectionStarts(bs: seq<Byte>, p: nat, magic: U32, count: nat, rest: seq<Byte>)
    requires At(bs, p, Words([magic, AsU32(count)]) + rest)
    ensures p + 4 <= |bs| && Read32(bs, p) == magic
  {
    AtBoth(bs, p, Words([magic, AsU32(count)]), rest);
    TwoWords(bs, p, magic, AsU32(count));
  }

  lemma OneThen<T>(x: T, xs: seq<T>, ys: seq<T>)
    ensures [x] + (xs + ys) == [x] + xs + ys
  {
  }

  /** Asked for more nodes than there are records, the reader goes on behind the last. */
  lemma {:induction false} DriReadOn(bs: seq<Byte>, p: nat, devs: seq<Dri>, m: nat)
    requires At(bs, p, Concat(DriRecord, devs)) && |bs| < 0x1_0000_0000 && |devs| <= m
    requires forall d :: d in devs ==> d.name != []
    ensures var end := p + |Concat(DriRecord, devs)|;
            end <= |bs| && DriFrom(bs, p, m).0 == ClippedDri(devs) + DriFrom(bs, end, m - |devs|).0
    decreases m
  {
    hide NodeAt, ClipDri, LeBytes, DriFrom;
    if devs != [] {
      var d, tail := devs[0], devs[1..];
      var rest := Concat(DriRecord, tail);
      assert Concat(DriRecord, devs) == DriRecord(d) + rest;
      DriHead(bs, p, d, rest);
      assert d in devs;
      var next := p + 52 + |d.name|;
      DriReadOn(bs, next, tail, m - 1);
      DriStep(bs, p, d, m, next);
      OneThen(ClipDri(d), ClippedDri(tail), DriFrom(bs, next + |rest|, m - |devs|).0);
    } else {
      assert ClippedDri(devs) + DriFrom(bs, p, m).0 == DriFrom(bs, p, m).0;
    }
  }

  /** The nodes the guest keeps, of those that fit. */
  function NodesRead(h: Host, room: nat): nat {
    Min(Min(AsU32(|h.dri|), 8), NodesKept(h, room))
  }

  /** In a buffer of any size the files and the nodes that fit are read, and nothing else is taken for
      either: where a record was announced and is missing, no section's bytes pass for one. */
  lemma FilesAndNodesArrive(bs: seq<Byte>, h: Host)
    requires FilledFrom(bs, h) && |bs| < ALLOC_SIZE_MAGIC && Sendable(h)
    ensures Read(bs).files == ClippedFiles(h.files[..FilesKept(h, |bs|)])
    ensures Read(bs).dri == if |bs| - |FilesSent(h.files, |bs|)| < 4 then None
                            else Some(ClippedDri(h.dri[..NodesRead(h, |bs|)]))
  {
    hide Sent, SysSent, FilesSection, DriFrom, FilesFrom, ClippedDri, ClippedFiles, SeenSizes;
    var files := FilesSent(h.files, |bs|);
    var p := |files|;
    FilesArrive(bs, h, p);
    if 4 <= |bs| - p { NodesArrive(bs, h, p); }
  }

  lemma FilesArrive(bs: seq<Byte>, h: Host, p: nat)
    requires FilledFrom(bs, h) && |bs| < ALLOC_SIZE_MAGIC && Sendable(h) && p == |FilesSent(h.files, |bs|)|
    ensures FilesFrom(bs, 0) == (ClippedFiles(h.files[..FilesKept(h, |bs|)]), p)
  {
    hide FileRecord, SysSent;
    if 8 <= |bs| {
      var files := h.files[..FilesKept(h, |bs|)];
      assert At(bs, 0, FilesSection(files));
      forall f | f in files ensures Named(f) { assert f in h.files; }
      FilesReadBack(bs, 0, files, p);
    } else {
      assert h.files[..0] == [];
    }
  }

  lemma NodesArrive(bs: seq<Byte>, h: Host, p: nat)
    requires FilledFrom(bs, h) && |bs| < ALLOC_SIZE_MAGIC && Sendable(h)
    requires p == |FilesSent(h.files, |bs|)| && 4 <= |bs| - p
    ensures Read32(bs, p) == AsU32(|h.dri|)
    ensures DriFrom(bs, p + 4, Min(Read32(bs, p), 8)).0 == ClippedDri(h.dri[..NodesRead(h, |bs|)])
  {
    hide FilledFrom, FilesSent, DriFrom, ClippedDri, DriRecord, NodesKept, At;
    var k, m := NodesKept(h, |bs|), Min(AsU32(|h.dri|), 8);
    var devs := h.dri[..k];
    NodesStand(bs, h, p);
    forall d | d in devs ensures d.name != [] { assert d in h.dri; }
    if m <= k {
      DriReadBack(bs, p + 4, devs, m);
      assert devs[..m] == h.dri[..m];
    } else {
      DriReadOn(bs, p + 4, devs, m);
      NoNodeHere(bs, p + 4 + |Concat(DriRecord, devs)|, m - k);
      assert ClippedDri(devs) + [] == ClippedDri(devs);
    }
  }

  /** The DRI section stands behind the files, the other sections behind it, and zeros behind those. */
  lemma SentStands(bs: seq<Byte>, h: Host, p: nat, dri: seq<Byte>, rest: seq<Byte>)
    requires FilledFrom(bs, h) && p == |FilesSent(h.files, |bs|)|
    requires dri == DriSent(h.dri, |bs| - p) && rest == FromSizes(h, |bs| - p - |dri|)
    ensures At(bs, p, dri) && At(bs, p + |dri|, rest) && Quiet(bs, p + |dri| + |rest|)
  {
    hide FilesSent, DriSent, FromSizes;
    assert At(bs, 0, FilesSent(h.files, |bs|) + (dri + rest));
    AtBoth(bs, 0, FilesSent(h.files, |bs|), dri + rest);
    AtBoth(bs, p, dri, rest);
  }

  /** Where the records stand, and what stands behind them. */
  lemma NodesStand(bs: seq<Byte>, h: Host, p: nat)
    requires FilledFrom(bs, h) && |bs| < ALLOC_SIZE_MAGIC
    requires p == |FilesSent(h.files, |bs|)| && 4 <= |bs| - p
    ensures var devs := h.dri[..NodesKept(h, |bs|)];
            var end := p + 4 + |Concat(DriRecord, devs)|;
            && Read32(bs, p) == AsU32(|h.dri|)
            && At(bs, p + 4, Concat(DriRecord, devs))
            && end <= |bs| && (end + 4 <= |bs| ==> Read32(bs, end) == 0 || Read32(bs, end) > |bs|)
  {
    hide FilledFrom, FilesSent, DriRecord, SizesPart, UvmPart, OsdescPart, OnlySections, FromSizes, Quiet, LeBytes;
    var devs := h.dri[..NodesKept(h, |bs|)];
    var dri := DriSent(h.dri, |bs| - p);
    var room := |bs| - p - |dri|;
    SentStands(bs, h, p, dri, FromSizes(h, room));
    SectionsSent(h, room);
    AtBoth(bs, p, Words([AsU32(|h.dri|)]), Concat(DriRecord, devs));
    WordAt(bs, p, [AsU32(|h.dri|)], 0);
    if p + |dri| + 4 <= |bs| { SectionWord(bs, p + |dri|, OnlySections(h, room)); }
  }

  /** The way this backend loses the UVM section: the sizes do not fit and the commands do. They are
      sent, and not read. */
  lemma SizesTooLong(bs: seq<Byte>, h: Host)
    requires FilledFrom(bs, h) && 8 <= |bs| < ALLOC_SIZE_MAGIC && Sendable(h)
    requires 4 <= |bs| - |FilesSent(h.files, |bs|)| && NodesKept(h, |bs|) == |h.dri|
    requires var left := |bs| - |FilesSent(h.files, |bs|)| - |DriSection(h.dri)|;
             h.uvm.Some? && |UvmPart(h)| <= left < |SizesPart(h)|
    ensures Told(h, |bs|).uvm == h.uvm && Read(bs).uvm == None
  {
    hide FilledFrom, FilesSent, SizesPart, UvmPart, OsdescPart, DriSent, Read;
    ReadsWhatFits(bs, h);
    AllNodes(h.dri, |bs| - |FilesSent(h.files, |bs|)|);
  }

  function ThreeClasses(): seq<ClassSize> {
    [ClassSize(1, 4), ClassSize(2, 4), ClassSize(3, 4)]
  }

  function OneCommand(): Host {
    Host([], [], Some(ThreeClasses()), Some([HostUvm(5, 20, [])]), None)
  }

  lemma ExampleSizes()
    ensures |SizesPart(OneCommand())| == 32 && |UvmPart(OneCommand())| == 24
    ensures FilesSent([], 36) == FilesSection([]) && |FilesSection([])| == 8
    ensures DriSent([], 28) == DriSection([]) && |DriSection([])| == 4
  {
    var c := ThreeClasses();
    assert c[1..] == [ClassSize(2, 4), ClassSize(3, 4)] && c[1..][1..] == [ClassSize(3, 4)] && c[1..][1..][1..] == [];
    assert WithParams(c) == c;
    var u := [HostUvm(5, 20, [])];
    assert u[1..] == [] && Rows(u) == [UvmCmd(5, 20, 0, 0)];
    SizesCount(c);
    UvmCount(Rows(u));
  }

  /** Such a host and buffer: three classes need 32 bytes, one command 24, and 24 are left. */
  lemma SizesTooLongExample()
    ensures var h, bs := OneCommand(), Sent(true, OneCommand(), 36);
            |bs| == 36 && FilledFrom(bs, h) && Told(h, 36).uvm.Some? && Read(bs).uvm == None
  {
    hide SizesPart, UvmPart, FilesSection, DriSection, FilesSent, DriSent, Read, Told;
    var bs := Sent(true, OneCommand(), 36);
    ExampleSizes();
    assert bs + Zeros(0) == bs;
    SizesTooLong(bs, OneCommand());
  }

  // ---------------------------------------------------------------------
  // The guest

  method ReadFiles(bs: seq<Byte>) returns (files: seq<File>, p: nat)
    ensures (files, p) == FilesFrom(bs, 0) && p <= |bs|
  {
    files, p := [], 0;
    BehindEnds([], FilesFrom(bs, 0), 0);
    while p + 8 <= |bs|
      invariant p <= |bs| && FilesFrom(bs, 0) == Behind(files, FilesFrom(bs, p))
      decreases |bs| - p
    {
      var f;
      BehindEnds(files, ([], 0), p + 8);
      f, p := ReadFile(bs, p);
      if f.None? { return; }
      BehindOne(files, f.value, FilesFrom(bs, p));
      files := files + [f.value];
    }
    BehindEnds(files, ([], 0), p);
  }

  /** One entry; None at the terminator and where the stream is cut short. */
  method ReadFile(bs: seq<Byte>, at: nat) returns (f: Option<File>, p: nat)
    requires at + 8 <= |bs|
    ensures f.None? ==> FilesFrom(bs, at) == ([], p)
    ensures f.Some? ==> at < p <= |bs| && FilesFrom(bs, at) == ([f.value] + FilesFrom(bs, p).0, FilesFrom(bs, p).1)
  {
    var path, content := Read32(bs, at), Read32(bs, at + 4);
    p := at + 8;
    if path == 0 && content == 0 { return None, p; }
    if p + path + content > |bs| { return None, p; }
    f := Some(ClipFile(File(bs[p..p + path], bs[p + path..p + path + content])));
    p := p + path + content;
  }

  method ReadDri(bs: seq<Byte>, at: nat, count: nat) returns (devs: seq<Dri>, p: nat)
    requires at <= |bs|
    ensures (devs, p) == DriFrom(bs, at, count) && p <= |bs|
  {
    devs, p := [], at;
    BehindEnds([], DriFrom(bs, at, count), 0);
    for i := 0 to count
      invariant p <= |bs| && DriFrom(bs, at, count) == Behind(devs, DriFrom(bs, p, count - i))
    {
      if p + 52 > |bs| {
        BehindEnds(devs, ([], 0), p);
        return;
      }
      var (len, node) := NodeAt(bs, p);
      BehindEnds(devs, ([], 0), p + 52);
      p := p + 52;
      if len == 0 || p + len > |bs| { return; }
      var d := ClipDri(node.(name := bs[p..p + len]));
      BehindOne(devs, d, DriFrom(bs, p + len, count - i - 1));
      devs := devs + [d];
      p := p + len;
    }
    BehindEnds(devs, ([], 0), p);
  }

  /** More records than the guest has slots for are still read past. */
  method ReadSizes(bs: seq<Byte>, at: nat, count: nat) returns (kept: seq<ClassSize>, p: nat)
    requires at <= |bs|
    ensures kept == Atmost(256, SizesFrom(bs, at, count).0) && p == SizesFrom(bs, at, count).1
  {
    kept, p := [], at;
    ghost var read: seq<ClassSize> := [];
    BehindEnds([], SizesFrom(bs, at, count), 0);
    for i := 0 to count
      invariant p <= |bs| && SizesFrom(bs, at, count) == Behind(read, SizesFrom(bs, p, count - i))
      invariant kept == Atmost(256, read)
    {
      if p + 8 > |bs| { break; }
      var c := ClassSize(Read32(bs, p), Read32(bs, p + 4));
      if |kept| < 256 { kept := kept + [c]; }
      BehindOne(read, c, SizesFrom(bs, p + 8, count - i - 1));
      read := read + [c];
      p := p + 8;
    }
    BehindEnds(read, ([], 0), p);
  }

  lemma {:induction false} OnlyInBlockNext(cmds: seq<UvmCmd>, c: UvmCmd)
    ensures OnlyInBlock(cmds + [c]) == OnlyInBlock(cmds) + if InBlock(c) then [c] else []
  {
    if cmds != [] {
      OnlyInBlockNext(cmds[1..], c);
      assert (cmds + [c])[1..] == cmds[1..] + [c];
    }
  }

  method ReadUvm(bs: seq<Byte>, at: nat, count: nat) returns (kept: seq<UvmCmd>, p: nat)
    requires at <= |bs|
    ensures kept == Atmost(128, OnlyInBlock(UvmFrom(bs, at, count).0)) && p == UvmFrom(bs, at, count).1
  {
    kept, p := [], at;
    ghost var read: seq<UvmCmd> := [];
    BehindEnds([], UvmFrom(bs, at, count), 0);
    for i := 0 to count
      invariant p <= |bs| && UvmFrom(bs, at, count) == Behind(read, UvmFrom(bs, p, count - i))
      invariant kept == Atmost(128, OnlyInBlock(read))
    {
      if p + 16 > |bs| { break; }
      var c := CommandAt(bs, p);
      BehindOne(read, c, UvmFrom(bs, p + 16, count - i - 1));
      kept := KeepCommand(kept, read, c);
      read := read + [c];
      p := p + 16;
    }
    BehindEnds(read, ([], 0), p);
  }

  /** A command takes a slot if there is one left and its descriptor lies inside its parameters. */
  method KeepCommand(kept: seq<UvmCmd>, ghost read: seq<UvmCmd>, c: UvmCmd) returns (now: seq<UvmCmd>)
    requires kept == Atmost(128, OnlyInBlock(read))
    ensures now == Atmost(128, OnlyInBlock(read + [c]))
  {
    OnlyInBlockNext(read, c);
    now := kept;
    if |kept| < 128 {
      if c.fdKind != 0 && c.fdAt + 4 > c.paramsSize { return; }
      now := kept + [c];
    }
  }

  /** The guest's device, as far as this message fills it. */
  class Guest {
    var files: seq<File>
    var dri: seq<Dri>
    var sizes: seq<ClassSize>
    var uvm: seq<UvmCmd>
    var osdesc: Osdesc
    var osdescValid: bool

    constructor (empty: Osdesc)
      ensures files == [] && dri == [] && sizes == [] && uvm == [] && osdesc == empty && !osdescValid
    {
      files, dri, sizes, uvm, osdesc, osdescValid := [], [], [], [], empty, false;
    }

    /** `nvgpu_fetch_sys_files`: a section that is found replaces what the device had, one that is
        not leaves it. */
    method Fetch(bs: seq<Byte>)
      modifies this
      ensures files == Read(bs).files
      ensures dri == if Read(bs).dri.Some? then Read(bs).dri.value else old(dri)
      ensures sizes == if Read(bs).sizes.Some? then Read(bs).sizes.value else old(sizes)
      ensures uvm == if Read(bs).uvm.Some? then Read(bs).uvm.value else old(uvm)
      ensures osdesc == if Read(bs).osdesc.Some? then Read(bs).osdesc.value else old(osdesc)
      ensures osdescValid == if Read(bs).osdesc.Some? then Usable(Read(bs).osdesc.value) else old(osdescValid)
      ensures Read(bs).osdesc.Some? ==>
                (osdescValid <==>
                   && osdesc.alloc.addressAt + 8 <= osdesc.alloc.paramsSize && osdesc.alloc.limitAt + 8 <= osdesc.alloc.paramsSize
                   && osdesc.allocMemory.addressAt + 8 <= osdesc.allocMemory.paramsSize
                   && osdesc.allocMemory.limitAt + 8 <= osdesc.allocMemory.paramsSize
                   && osdesc.vidHeap.addressAt + 8 <= osdesc.vidHeap.paramsSize
                   && osdesc.vidHeap.limitAt + 8 <= osdesc.vidHeap.paramsSize)
    {
      hide SeenSizes, FilesFrom, DriFrom;
      var p;
      files, p := ReadFiles(bs);
      if p + 4 > |bs| { return; }
      dri, p := ReadDri(bs, p + 4, Min(Read32(bs, p), 8));
      FetchSizes(bs, p);
    }

    method FetchSizes(bs: seq<Byte>, p: nat)
      requires p <= |bs|
      modifies this`sizes, this`uvm, this`osdesc, this`osdescValid
      ensures var s := SeenSizes(bs, p);
              && sizes == (if s.0.Some? then s.0.value else old(sizes))
              && uvm == (if s.1.Some? then s.1.value else old(uvm))
              && osdesc == (if s.2.Some? then s.2.value else old(osdesc))
              && osdescValid == if s.2.Some? then Usable(s.2.value) else old(osdescValid)
    {
      if p + 8 > |bs| || Read32(bs, p) != ALLOC_SIZE_MAGIC { return; }
      var q;
      sizes, q := ReadSizes(bs, p + 8, Read32(bs, p + 4));
      FetchUvm(bs, q);
    }

    method FetchUvm(bs: seq<Byte>, p: nat)
      requires p <= |bs|
      modifies this`uvm, this`osdesc, this`osdescValid
      ensures var s := SeenUvm(bs, p);
              && uvm == (if s.0.Some? then s.0.value else old(uvm))
              && osdesc == (if s.1.Some? then s.1.value else old(osdesc))
              && osdescValid == if s.1.Some? then Usable(s.1.value) else old(osdescValid)
    {
      if p + 8 > |bs| || Read32(bs, p) != UVM_CMD_MAGIC { return; }
      var q;
      uvm, q := ReadUvm(bs, p + 8, Read32(bs, p + 4));
      FetchOsdesc(bs, q);
    }

    method FetchOsdesc(bs: seq<Byte>, p: nat)
      modifies this`osdesc, this`osdescValid
      ensures var s := OsdescAt(bs, p);
              && osdesc == (if s.Some? then s.value else old(osdesc))
              && osdescValid == if s.Some? then Usable(s.value) else old(osdescValid)
    {
      var found := OsdescAt(bs, p);
      if found.None? { return; }
      osdesc := found.value;
      osdescValid := RouteInBlock(osdesc.alloc) && RouteInBlock(osdesc.allocMemory) && RouteInBlock(osdesc.vidHeap);
    }
  }

  /** One request: the backend fills a zeroed buffer, and a guest that held nothing holds what was sent,
      within its own limits. */
  method Exchange(h: Host, size: nat, empty: Osdesc) returns (g: Guest)
    requires 8 <= size < ALLOC_SIZE_MAGIC && Sendable(h)
    requires 4 <= size - |FilesSent(h.files, size)| && NodesKept(h, size) == |h.dri|
    ensures fresh(g)
    ensures g.files == Expected(Told(h, size)).files && g.dri == Expected(Told(h, size)).dri.value
    ensures g.sizes == if Expected(Told(h, size)).sizes.Some? then Expected(Told(h, size)).sizes.value else []
    ensures g.uvm == if Expected(Told(h, size)).uvm.Some? then Expected(Told(h, size)).uvm.value else []
    ensures g.osdescValid <==> Expected(Told(h, size)).osdesc.Some? && Usable(Expected(Told(h, size)).osdesc.value)
    ensures Expected(Told(h, size)).osdesc.Some? ==> g.osdesc == Expected(Told(h, size)).osdesc.value
  {
    hide Told, FilesSent, NodesKept, Sent;
    var buf := new Byte[size](_ => 0);
    var off := HandleGetFiles(true, buf, h);
    assert FilledFrom(buf[..], h);
    ReadsWhatFits(buf[..], h);
    g := new Guest(empty);
    g.Fetch(buf[..]);
  }
}
