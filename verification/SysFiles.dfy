/** The answer to GET_SYS_FILES: five sections the backend writes and the guest reads, and what of
    the first survives to the second. */
module SysFiles {
  import opened Basics
  import opened Wire
  import opened Records

  const ALLOC_SIZE_MAGIC: U32 := 0x4e56_414c
  const UVM_CMD_MAGIC: U32 := 0x4e56_5556
  const OSDESC_MAGIC: U32 := 0x4e56_4f44

  datatype File = File(path: seq<Byte>, content: seq<Byte>)

  /** The nine `dev_info` words of a render node. */
  type DevInfo = ws: seq<U32> | |ws| == 9 witness [0, 0, 0, 0, 0, 0, 0, 0, 0]

  datatype Dri = Dri(name: seq<Byte>, major: U32, minor: U32, slot: U32, info: DevInfo)

  datatype ClassSize = ClassSize(classId: U32, paramsSize: U32)

  /** A UVM command as the guest keeps it; `fdKind` 0 is no descriptor. */
  datatype UvmCmd = UvmCmd(num: U32, paramsSize: U32, fdKind: U32, fdAt: U32)

  datatype FdKind = Ctl | Uvm | Foreign
  datatype Fd = Fd(kind: FdKind, at: nat)

  /** A UVM command of the host's release. */
  datatype HostUvm = HostUvm(num: U32, paramsSize: U32, fds: seq<Fd>)

  datatype Route = Route(paramsSize: nat, addressAt: nat, limitAt: nat, typeAt: nat)

  datatype Osdesc = Osdesc(
    classId: U32, vidHeapFunction: U32, vidHeapFunctionAt: nat, allocMemoryClassAt: nat, virtualAddress: U32,
    allocMemoryStatusAt: nat, vidHeapStatusAt: nat, vidHeapHmemoryAt: nat,
    alloc: Route, allocMemory: Route, vidHeap: Route)

  /** What the backend has to say; a section is absent while its part of the host is unknown. */
  datatype Host = Host(
    files: seq<File>, dri: seq<Dri>,
    classes: Option<seq<ClassSize>>, uvm: Option<seq<HostUvm>>, osdesc: Option<Osdesc>)

  // ---------------------------------------------------------------------
  // The stream

  function FileRecord(f: File): seq<Byte> {
    Words([AsU32(|f.path|), AsU32(|f.content|)]) + f.path + f.content
  }

  function FilesSection(files: seq<File>): seq<Byte> {
    Concat(FileRecord, files) + Words([0, 0])
  }

  function DriRecord(d: Dri): seq<Byte> {
    Words([AsU32(|d.name|), d.major, d.minor, d.slot] + d.info) + d.name
  }

  function DriSection(devs: seq<Dri>): seq<Byte> {
    Words([AsU32(|devs|)]) + Concat(DriRecord, devs)
  }

  function SizeRecord(c: ClassSize): seq<Byte> {
    Words([c.classId, c.paramsSize])
  }

  /** Only classes that take parameters are named. */
  function WithParams(classes: seq<ClassSize>): seq<ClassSize> {
    if classes == [] then []
    else (if classes[0].paramsSize > 0 then [classes[0]] else []) + WithParams(classes[1..])
  }

  function SizesSection(rows: seq<ClassSize>): seq<Byte> {
    Words([ALLOC_SIZE_MAGIC, AsU32(|rows|)]) + Concat(SizeRecord, rows)
  }

  function UvmRecord(c: UvmCmd): seq<Byte> {
    Words([c.num, c.paramsSize, c.fdKind, c.fdAt])
  }

  function KindWord(k: FdKind): U32 {
    match k
    case Ctl => 1
    case Uvm => 2
    case Foreign => 3
  }

  /** A command with two descriptors has no record. */
  function RowOf(c: HostUvm): seq<UvmCmd> {
    if |c.fds| == 0 then [UvmCmd(c.num, c.paramsSize, 0, 0)]
    else if |c.fds| == 1 then [UvmCmd(c.num, c.paramsSize, KindWord(c.fds[0].kind), AsU32(c.fds[0].at))]
    else []
  }

  function Rows(cmds: seq<HostUvm>): seq<UvmCmd> {
    if cmds == [] then [] else RowOf(cmds[0]) + Rows(cmds[1..])
  }

  function UvmSection(rows: seq<UvmCmd>): seq<Byte> {
    Words([UVM_CMD_MAGIC, AsU32(|rows|)]) + Concat(UvmRecord, rows)
  }

  function RouteWords(r: Route): (ws: seq<U32>)
    ensures |ws| == 4
  {
    [AsU32(r.paramsSize), AsU32(r.addressAt), AsU32(r.limitAt), AsU32(r.typeAt)]
  }

  function OsdescWords(d: Osdesc): (ws: seq<U32>)
    ensures |ws| == 22
  {
    [OSDESC_MAGIC, d.classId, d.vidHeapFunction, AsU32(d.vidHeapFunctionAt), AsU32(d.allocMemoryClassAt), d.virtualAddress,
     AsU32(d.allocMemoryStatusAt), AsU32(d.vidHeapStatusAt), AsU32(d.vidHeapHmemoryAt), 0]
    + RouteWords(d.alloc) + RouteWords(d.allocMemory) + RouteWords(d.vidHeap)
  }

  function SizesPart(h: Host): seq<Byte> {
    if h.classes.None? then [] else SizesSection(WithParams(h.classes.value))
  }

  function UvmPart(h: Host): seq<Byte> {
    if h.uvm.None? then [] else UvmSection(Rows(h.uvm.value))
  }

  function OsdescPart(h: Host): seq<Byte> {
    if h.osdesc.None? then [] else Words(OsdescWords(h.osdesc.value))
  }

  /** Everything the backend has to say, in order. */
  function Stream(h: Host): seq<Byte> {
    FilesSection(h.files) + (DriSection(h.dri) + (SizesPart(h) + (UvmPart(h) + OsdescPart(h))))
  }

  // ---------------------------------------------------------------------
  // What the guest makes of a buffer

  function Clip(bs: seq<Byte>, n: nat): (r: seq<Byte>)
    ensures |r| <= n
  {
    if |bs| <= n then bs else bs[..n]
  }

  /** Paths are kept in 256 bytes, the last a terminator. */
  function ClipFile(f: File): File {
    File(Clip(f.path, 255), f.content)
  }

  function ClipDri(d: Dri): Dri {
    d.(name := Clip(d.name, 31))
  }

  /** The file entries from `p` on, and where the reader stands after them. */
  function FilesFrom(bs: seq<Byte>, p: nat): (r: (seq<File>, nat))
    requires p <= |bs|
    ensures p <= r.1 <= |bs|
    decreases |bs| - p
  {
    if p + 8 > |bs| then ([], p)
    else
      var path, content := Read32(bs, p), Read32(bs, p + 4);
      var q := p + 8;
      if (path == 0 && content == 0) || q + path + content > |bs| then ([], q)
      else
        var rest := FilesFrom(bs, q + path + content);
        ([ClipFile(File(bs[q..q + path], bs[q + path..q + path + content]))] + rest.0, rest.1)
  }

  /** At most `n` render nodes from `p` on. */
  function DriFrom(bs: seq<Byte>, p: nat, n: nat): (r: (seq<Dri>, nat))
    requires p <= |bs|
    ensures p <= r.1 <= |bs| && |r.0| <= n
    decreases n
  {
    if n == 0 || p + 52 > |bs| then ([], p)
    else
      var (len, node) := NodeAt(bs, p);
      var q := p + 52;
      if len == 0 || q + len > |bs| then ([], q)
      else
        var rest := DriFrom(bs, q + len, n - 1);
        ([ClipDri(node.(name := bs[q..q + len]))] + rest.0, rest.1)
  }

  /** The fixed part of a record: how long the name is, and the rest of the node. */
  function NodeAt(bs: seq<Byte>, p: nat): (U32, Dri)
    requires p + 52 <= |bs|
  {
    NodeOf(ReadWords(bs, p, 13))
  }

  function NodeOf(ws: seq<U32>): (U32, Dri)
    requires |ws| == 13
  {
    (ws[0], Dri([], ws[1], ws[2], ws[3], ws[4..13]))
  }

  /** `n` allocation sizes from `p` on, or as many as are there. */
  function SizesFrom(bs: seq<Byte>, p: nat, n: nat): (r: (seq<ClassSize>, nat))
    requires p <= |bs|
    ensures p <= r.1 <= |bs|
    decreases n
  {
    if n == 0 || p + 8 > |bs| then ([], p)
    else
      var rest := SizesFrom(bs, p + 8, n - 1);
      ([ClassSize(Read32(bs, p), Read32(bs, p + 4))] + rest.0, rest.1)
  }

  function UvmFrom(bs: seq<Byte>, p: nat, n: nat): (r: (seq<UvmCmd>, nat))
    requires p <= |bs|
    ensures p <= r.1 <= |bs|
    decreases n
  {
    if n == 0 || p + 16 > |bs| then ([], p)
    else
      var rest := UvmFrom(bs, p + 16, n - 1);
      ([CommandAt(bs, p)] + rest.0, rest.1)
  }

  function CommandAt(bs: seq<Byte>, p: nat): UvmCmd
    requires p + 16 <= |bs|
  {
    CommandOf(ReadWords(bs, p, 4))
  }

  function CommandOf(ws: seq<U32>): UvmCmd
    requires |ws| == 4
  {
    UvmCmd(ws[0], ws[1], ws[2], ws[3])
  }

  /** A descriptor has to lie inside the parameters it belongs to. */
  predicate InBlock(c: UvmCmd) {
    c.fdKind == 0 || c.fdAt + 4 <= c.paramsSize
  }

  function OnlyInBlock(cmds: seq<UvmCmd>): (r: seq<UvmCmd>)
    ensures forall c :: c in r <==> c in cmds && (c.fdKind == 0 || c.fdAt + 4 <= c.paramsSize)
  {
    if cmds == [] then []
    else (if InBlock(cmds[0]) then [cmds[0]] else []) + OnlyInBlock(cmds[1..])
  }

  function Atmost<T>(n: nat, xs: seq<T>): (r: seq<T>)
    ensures |r| <= n
  {
    if |xs| <= n then xs else xs[..n]
  }

  /** The count behind a section's magic word; None when the section is not there. */
  function SectionCount(bs: seq<Byte>, p: nat, magic: U32): Option<U32> {
    if p + 8 > |bs| || Read32(bs, p) != magic then None else Some(Read32(bs, p + 4))
  }

  function RouteOf(ws: seq<U32>): Route
    requires |ws| == 4
  {
    Route(ws[0], ws[1], ws[2], ws[3])
  }

  function OsdescOf(w: seq<U32>): Osdesc
    requires |w| == 22
  {
    Osdesc(w[1], w[2], w[3], w[4], w[5], w[6], w[7], w[8], RouteOf(w[10..14]), RouteOf(w[14..18]), RouteOf(w[18..22]))
  }

  predicate RouteInBlock(r: Route) {
    r.addressAt + 8 <= r.paramsSize && r.limitAt + 8 <= r.paramsSize
  }

  predicate Usable(d: Osdesc) {
    RouteInBlock(d.alloc) && RouteInBlock(d.allocMemory) && RouteInBlock(d.vidHeap)
  }

  /** What the guest has after reading; None is a section it never got to, or did not find. */
  datatype Seen = Seen(
    files: seq<File>, dri: Option<seq<Dri>>, sizes: Option<seq<ClassSize>>,
    uvm: Option<seq<UvmCmd>>, osdesc: Option<Osdesc>)

  function OsdescAt(bs: seq<Byte>, p: nat): Option<Osdesc> {
    if p + 88 > |bs| || Read32(bs, p) != OSDESC_MAGIC then None else Some(OsdescOf(ReadWords(bs, p, 22)))
  }

  function SeenUvm(bs: seq<Byte>, p: nat): (r: (Option<seq<UvmCmd>>, Option<Osdesc>))
    ensures r.0.Some? ==> |r.0.value| <= 128 && forall c :: c in r.0.value ==> InBlock(c)
  {
    var count := SectionCount(bs, p, UVM_CMD_MAGIC);
    if count.None? then (None, None)
    else
      var r := UvmFrom(bs, p + 8, count.value);
      (Some(Atmost(128, OnlyInBlock(r.0))), OsdescAt(bs, r.1))
  }

  function SeenSizes(bs: seq<Byte>, p: nat): (r: (Option<seq<ClassSize>>, Option<seq<UvmCmd>>, Option<Osdesc>)) {
    var count := SectionCount(bs, p, ALLOC_SIZE_MAGIC);
    if count.None? then (None, None, None)
    else
      var r := SizesFrom(bs, p + 8, count.value);
      var rest := SeenUvm(bs, r.1);
      (Some(Atmost(256, r.0)), rest.0, rest.1)
  }

  /** The whole reading of a response buffer. Whatever it holds, what is kept respects the guest's
      own arrays, and no kept command places a descriptor outside its parameters. */
  function Read(bs: seq<Byte>): (s: Seen)
    ensures s.dri.Some? ==> |s.dri.value| <= 8
    ensures s.sizes.Some? ==> |s.sizes.value| <= 256
    ensures s.uvm.Some? ==> |s.uvm.value| <= 128 && forall c :: c in s.uvm.value ==> InBlock(c)
  {
    var f := FilesFrom(bs, 0);
    if f.1 + 4 > |bs| then Seen(f.0, None, None, None, None)
    else
      var d := DriFrom(bs, f.1 + 4, Min(Read32(bs, f.1), 8));
      var rest := SeenSizes(bs, d.1);
      Seen(f.0, Some(d.0), rest.0, rest.1, rest.2)
  }

  // ---------------------------------------------------------------------
  // Each section reads back

  function ClippedFiles(files: seq<File>): seq<File> {
    if files == [] then [] else [ClipFile(files[0])] + ClippedFiles(files[1..])
  }

  function ClippedDri(devs: seq<Dri>): seq<Dri> {
    if devs == [] then [] else [ClipDri(devs[0])] + ClippedDri(devs[1..])
  }

  /** A file with neither path nor content would read as the end of the list. */
  predicate Named(f: File) {
    f.path != [] || f.content != []
  }

  /** A record is its words, its path and its content, and the rest comes after. */
  lemma FileHead(bs: seq<Byte>, p: nat, f: File, rest: seq<Byte>)
    requires At(bs, p, FileRecord(f) + rest)
    ensures At(bs, p, Words([AsU32(|f.path|), AsU32(|f.content|)]))
    ensures At(bs, p + 8, f.path) && At(bs, p + 8 + |f.path|, f.content)
    ensures At(bs, p + 8 + |f.path| + |f.content|, rest)
  {
    AtBoth(bs, p, FileRecord(f), rest);
    var head := Words([AsU32(|f.path|), AsU32(|f.content|)]);
    AtBoth(bs, p, head + f.path, f.content);
    AtBoth(bs, p, head, f.path);
  }

  lemma TwoWords(bs: seq<Byte>, p: nat, a: U32, b: U32)
    requires At(bs, p, Words([a, b]))
    ensures p + 8 <= |bs| && Read32(bs, p) == a && Read32(bs, p + 4) == b
  {
    WordAt(bs, p, [a, b], 0);
    WordAt(bs, p, [a, b], 1);
  }

  lemma {:induction false} FilesReadBack(bs: seq<Byte>, p: nat, files: seq<File>, end: nat)
    requires At(bs, p, FilesSection(files)) && |bs| < 0x1_0000_0000 && end == p + |FilesSection(files)|
    requires forall f :: f in files ==> Named(f)
    ensures FilesFrom(bs, p) == (ClippedFiles(files), end)
    decreases |files|
  {
    if files == [] {
      assert FilesSection([]) == Words([0, 0]);
      TwoWords(bs, p, 0, 0);
    } else {
      var f, rest := files[0], FilesSection(files[1..]);
      assert FilesSection(files) == FileRecord(f) + rest;
      var next := p + 8 + |f.path| + |f.content|;
      FileReads(bs, p, f, rest, next);
      FilesReadBack(bs, next, files[1..], end);
    }
  }

  lemma FileReads(bs: seq<Byte>, p: nat, f: File, rest: seq<Byte>, next: nat)
    requires At(bs, p, FileRecord(f) + rest) && |bs| < 0x1_0000_0000 && Named(f)
    requires next == p + 8 + |f.path| + |f.content|
    ensures At(bs, next, rest)
    ensures FilesFrom(bs, p) == ([ClipFile(f)] + FilesFrom(bs, next).0, FilesFrom(bs, next).1)
  {
    hide At, FileRecord, ClipFile, FilesFrom, Words;
    FileHead(bs, p, f, rest);
    TwoWords(bs, p, AsU32(|f.path|), AsU32(|f.content|));
    FileStep(bs, p, f, next);
  }

  lemma FileStep(bs: seq<Byte>, p: nat, f: File, next: nat)
    requires p + 8 <= |bs| && Read32(bs, p) == |f.path| && Read32(bs, p + 4) == |f.content| && Named(f)
    requires next == p + 8 + |f.path| + |f.content| <= |bs|
    requires At(bs, p + 8, f.path) && At(bs, p + 8 + |f.path|, f.content)
    ensures FilesFrom(bs, p) == ([ClipFile(f)] + FilesFrom(bs, next).0, FilesFrom(bs, next).1)
  {
  }

  lemma DriHead(bs: seq<Byte>, p: nat, d: Dri, rest: seq<Byte>)
    requires At(bs, p, DriRecord(d) + rest)
    ensures At(bs, p, Words([AsU32(|d.name|), d.major, d.minor, d.slot] + d.info))
    ensures At(bs, p + 52, d.name) && At(bs, p + 52 + |d.name|, rest)
  {
    AtBoth(bs, p, DriRecord(d), rest);
    AtBoth(bs, p, Words([AsU32(|d.name|), d.major, d.minor, d.slot] + d.info), d.name);
  }

  lemma DriStep(bs: seq<Byte>, p: nat, d: Dri, n: nat, next: nat)
    requires At(bs, p, Words([AsU32(|d.name|), d.major, d.minor, d.slot] + d.info))
    requires next == p + 52 + |d.name| && At(bs, p + 52, d.name) && 0 < |d.name| < 0x1_0000_0000 && n > 0
    ensures DriFrom(bs, p, n) == ([ClipDri(d)] + DriFrom(bs, next, n - 1).0, DriFrom(bs, next, n - 1).1)
  {
    NodeReads(bs, p, d);
  }

  lemma NodeReads(bs: seq<Byte>, p: nat, d: Dri)
    requires At(bs, p, Words([AsU32(|d.name|), d.major, d.minor, d.slot] + d.info)) && 0 < |d.name| < 0x1_0000_0000
    ensures p + 52 <= |bs| && NodeAt(bs, p) == (|d.name|, d.(name := []))
  {
    var ws := [AsU32(|d.name|), d.major, d.minor, d.slot] + d.info;
    WordsAt(bs, p, ws);
    NodeIs(d);
  }

  lemma NodeIs(d: Dri)
    requires |d.name| < 0x1_0000_0000
    ensures NodeOf([AsU32(|d.name|), d.major, d.minor, d.slot] + d.info) == (|d.name|, d.(name := []))
  {
    var ws := [AsU32(|d.name|), d.major, d.minor, d.slot] + d.info;
    assert ws[4..13] == d.info;
  }

  /** The first `n` nodes read back, and the reader stands at the next one. */
  lemma {:induction false} DriReadBack(bs: seq<Byte>, p: nat, devs: seq<Dri>, n: nat)
    requires At(bs, p, Concat(DriRecord, devs)) && |bs| < 0x1_0000_0000 && n <= |devs|
    requires forall d :: d in devs ==> d.name != []
    ensures DriFrom(bs, p, n).0 == ClippedDri(devs[..n])
    ensures At(bs, DriFrom(bs, p, n).1, Concat(DriRecord, devs[n..]))
    ensures DriFrom(bs, p, n).1 + |Concat(DriRecord, devs[n..])| == p + |Concat(DriRecord, devs)|
    decreases n
  {
    hide NodeAt, ClipDri, At, LeBytes;
    if n == 0 {
      assert devs[..0] == [] && devs[0..] == devs;
    } else {
      var d, tail := devs[0], devs[1..];
      var rest := Concat(DriRecord, tail);
      assert Concat(DriRecord, devs) == DriRecord(d) + rest;
      DriHead(bs, p, d, rest);
      assert d in devs;
      var next := p + 52 + |d.name|;
      DriReadBack(bs, next, tail, n - 1);
      DriStep(bs, p, d, n, next);
      FirstOf(devs, n);
    }
  }

  lemma FirstOf(devs: seq<Dri>, n: nat)
    requires 0 < n <= |devs|
    ensures devs[n..] == devs[1..][n - 1..]
    ensures ClippedDri(devs[..n]) == [ClipDri(devs[0])] + ClippedDri(devs[1..][..n - 1])
  {
    assert devs[..n][1..] == devs[1..][..n - 1];
  }

  lemma {:induction false} SizesReadBack(bs: seq<Byte>, p: nat, rows: seq<ClassSize>)
    requires At(bs, p, Concat(SizeRecord, rows))
    ensures SizesFrom(bs, p, |rows|) == (rows, p + |Concat(SizeRecord, rows)|)
    decreases |rows|
  {
    if rows != [] {
      var c, tail := rows[0], rows[1..];
      var rest := Concat(SizeRecord, tail);
      assert Concat(SizeRecord, rows) == SizeRecord(c) + rest;
      AtBoth(bs, p, SizeRecord(c), rest);
      TwoWords(bs, p, c.classId, c.paramsSize);
      SizesReadBack(bs, p + 8, tail);
      assert |rows| - 1 == |tail| && [c] + tail == rows;
    }
  }

  lemma {:induction false} UvmReadBack(bs: seq<Byte>, p: nat, rows: seq<UvmCmd>)
    requires At(bs, p, Concat(UvmRecord, rows))
    ensures UvmFrom(bs, p, |rows|) == (rows, p + |Concat(UvmRecord, rows)|)
    decreases |rows|
  {
    hide At;
    if rows != [] {
      var c, tail := rows[0], rows[1..];
      var rest := Concat(UvmRecord, tail);
      assert Concat(UvmRecord, rows) == UvmRecord(c) + rest;
      AtBoth(bs, p, UvmRecord(c), rest);
      WordsAt(bs, p, [c.num, c.paramsSize, c.fdKind, c.fdAt]);
      UvmReadBack(bs, p + 16, tail);
      assert |rows| - 1 == |tail| && [c] + tail == rows;
    }
  }

  ghost function NarrowRoute(r: Route): Route {
    Route(Cut(r.paramsSize), Cut(r.addressAt), Cut(r.limitAt), Cut(r.typeAt))
  }

  /** What is left of a number in a 32-bit word. */
  ghost function Cut(n: nat): nat {
    n % 0x1_0000_0000
  }

  /** Offsets are sent as 32-bit words. */
  ghost function Narrow(d: Osdesc): Osdesc {
    d.(vidHeapFunctionAt := Cut(d.vidHeapFunctionAt), allocMemoryClassAt := Cut(d.allocMemoryClassAt),
       allocMemoryStatusAt := Cut(d.allocMemoryStatusAt), vidHeapStatusAt := Cut(d.vidHeapStatusAt),
       vidHeapHmemoryAt := Cut(d.vidHeapHmemoryAt), alloc := NarrowRoute(d.alloc),
       allocMemory := NarrowRoute(d.allocMemory), vidHeap := NarrowRoute(d.vidHeap))
  }

  lemma OsdescReadsBack(bs: seq<Byte>, p: nat, d: Osdesc)
    requires At(bs, p, Words(OsdescWords(d)))
    ensures OsdescAt(bs, p) == Some(Narrow(d))
  {
    WordsAt(bs, p, OsdescWords(d));
    WordAt(bs, p, OsdescWords(d), 0);
    OsdescBack(d);
  }

  lemma OsdescBack(d: Osdesc)
    ensures OsdescOf(OsdescWords(d)) == Narrow(d)
  {
  }

  lemma HeaderReads(bs: seq<Byte>, p: nat, magic: U32, count: nat, rest: seq<Byte>, other: U32)
    requires At(bs, p, Words([magic, AsU32(count)]) + rest) && count <= |rest| && |bs| < 0x1_0000_0000 && other != magic
    ensures SectionCount(bs, p, magic) == Some(count) && At(bs, p + 8, rest)
    ensures SectionCount(bs, p, other) == None
  {
    AtBoth(bs, p, Words([magic, AsU32(count)]), rest);
    TwoWords(bs, p, magic, AsU32(count));
  }

  // ---------------------------------------------------------------------
  // The whole stream reads back

  /** The buffer is zeroed from `p` on. */
  ghost predicate Quiet(bs: seq<Byte>, p: nat) {
    forall i :: p <= i < |bs| ==> bs[i] == 0
  }

  lemma QuietWord(bs: seq<Byte>, p: nat)
    requires Quiet(bs, p) && p + 4 <= |bs|
    ensures Read32(bs, p) == 0
  {
    var w := bs[p..p + 4];
    assert w[0] == 0 && w[1] == 0 && w[2] == 0 && w[3] == 0;
    assert Le32(0)[0] == 0 && Le32(0)[1] == 0 && Le32(0)[2] == 0 && Le32(0)[3] == 0;
    assert w == Le32(0);
    ReadBack32(bs, p, 0);
  }

  /** What the guest should make of the host's OS descriptor. */
  ghost function ExpectedOsdesc(h: Host): Option<Osdesc> {
    if h.osdesc.None? then None else Some(Narrow(h.osdesc.value))
  }

  ghost function ExpectedUvm(h: Host): (Option<seq<UvmCmd>>, Option<Osdesc>) {
    if h.uvm.None? then (None, None)
    else (Some(Atmost(128, OnlyInBlock(Rows(h.uvm.value)))), ExpectedOsdesc(h))
  }

  ghost function ExpectedSizes(h: Host): (Option<seq<ClassSize>>, Option<seq<UvmCmd>>, Option<Osdesc>) {
    if h.classes.None? then (None, None, None)
    else
      var rest := ExpectedUvm(h);
      (Some(Atmost(256, WithParams(h.classes.value))), rest.0, rest.1)
  }

  /** A section that is missing hides all that follow it, and so does a ninth render node. */
  ghost function Expected(h: Host): Seen {
    var rest := if |h.dri| <= 8 then ExpectedSizes(h) else (None, None, None);
    Seen(ClippedFiles(h.files), Some(ClippedDri(Atmost(8, h.dri))), rest.0, rest.1, rest.2)
  }

  lemma OsdescTail(bs: seq<Byte>, p: nat, h: Host)
    requires At(bs, p, OsdescPart(h)) && Quiet(bs, p + |OsdescPart(h)|)
    ensures OsdescAt(bs, p) == ExpectedOsdesc(h)
    ensures SectionCount(bs, p, UVM_CMD_MAGIC) == None == SectionCount(bs, p, ALLOC_SIZE_MAGIC)
  {
    if h.osdesc.None? {
      if p + 4 <= |bs| { QuietWord(bs, p); }
    } else {
      OsdescReadsBack(bs, p, h.osdesc.value);
      WordAt(bs, p, OsdescWords(h.osdesc.value), 0);
    }
  }

  lemma UvmTail(bs: seq<Byte>, p: nat, h: Host)
    requires At(bs, p, UvmPart(h) + OsdescPart(h)) && Quiet(bs, p + |UvmPart(h)| + |OsdescPart(h)|)
    requires |bs| < 0x1_0000_0000
    ensures SeenUvm(bs, p) == ExpectedUvm(h)
    ensures SectionCount(bs, p, ALLOC_SIZE_MAGIC) == None
  {
    var q := p + |UvmPart(h)|;
    AtBoth(bs, p, UvmPart(h), OsdescPart(h));
    OsdescTail(bs, q, h);
    UvmThen(bs, p, h, OsdescAt(bs, q));
  }

  lemma UvmThen(bs: seq<Byte>, p: nat, h: Host, rest: Option<Osdesc>)
    requires At(bs, p, UvmPart(h)) && |bs| < 0x1_0000_0000 && rest == OsdescAt(bs, p + |UvmPart(h)|)
    requires h.uvm.None? ==> SectionCount(bs, p, UVM_CMD_MAGIC) == None == SectionCount(bs, p, ALLOC_SIZE_MAGIC)
    ensures SeenUvm(bs, p) == if h.uvm.None? then (None, None)
                              else (Some(Atmost(128, OnlyInBlock(Rows(h.uvm.value)))), rest)
    ensures SectionCount(bs, p, ALLOC_SIZE_MAGIC) == None
  {
    hide At, OsdescAt, UvmSection, SectionCount, OnlyInBlock, Rows;
    if h.uvm.Some? { UvmPresent(bs, p, Rows(h.uvm.value)); }
  }

  lemma UvmPresent(bs: seq<Byte>, p: nat, rows: seq<UvmCmd>)
    requires At(bs, p, UvmSection(rows)) && |bs| < 0x1_0000_0000
    ensures SeenUvm(bs, p) == (Some(Atmost(128, OnlyInBlock(rows))), OsdescAt(bs, p + |UvmSection(rows)|))
    ensures SectionCount(bs, p, ALLOC_SIZE_MAGIC) == None
  {
    hide At, OsdescAt, OnlyInBlock, UvmSection;
    UvmHeader(bs, p, rows);
    UvmReadBack(bs, p + 8, rows);
  }

  lemma UvmHeader(bs: seq<Byte>, p: nat, rows: seq<UvmCmd>)
    requires At(bs, p, UvmSection(rows)) && |bs| < 0x1_0000_0000
    ensures SectionCount(bs, p, UVM_CMD_MAGIC) == Some(|rows|) && SectionCount(bs, p, ALLOC_SIZE_MAGIC) == None
    ensures At(bs, p + 8, Concat(UvmRecord, rows)) && |UvmSection(rows)| == 8 + |Concat(UvmRecord, rows)|
  {
    UvmCount(rows);
    HeaderReads(bs, p, UVM_CMD_MAGIC, |rows|, Concat(UvmRecord, rows), ALLOC_SIZE_MAGIC);
  }

  lemma {:induction false} UvmCount(rows: seq<UvmCmd>)
    ensures |Concat(UvmRecord, rows)| == 16 * |rows|
  {
    if rows != [] { UvmCount(rows[1..]); }
  }

  lemma {:induction false} SizesCount(rows: seq<ClassSize>)
    ensures |Concat(SizeRecord, rows)| == 8 * |rows|
  {
    if rows != [] { SizesCount(rows[1..]); }
  }

  lemma SizesTail(bs: seq<Byte>, p: nat, h: Host)
    requires At(bs, p, SizesPart(h) + (UvmPart(h) + OsdescPart(h)))
    requires Quiet(bs, p + |SizesPart(h)| + |UvmPart(h)| + |OsdescPart(h)|) && |bs| < 0x1_0000_0000
    ensures SeenSizes(bs, p) == ExpectedSizes(h)
  {
    hide At, Quiet, SeenSizes, SeenUvm, SectionCount, UvmPart, OsdescPart;
    var q := p + |SizesPart(h)|;
    AtBoth(bs, p, SizesPart(h), UvmPart(h) + OsdescPart(h));
    UvmTail(bs, q, h);
    SizesThen(bs, p, h, SeenUvm(bs, q));
  }

  lemma SizesThen(bs: seq<Byte>, p: nat, h: Host, rest: (Option<seq<UvmCmd>>, Option<Osdesc>))
    requires At(bs, p, SizesPart(h)) && |bs| < 0x1_0000_0000 && rest == SeenUvm(bs, p + |SizesPart(h)|)
    requires h.classes.None? ==> SectionCount(bs, p, ALLOC_SIZE_MAGIC) == None
    ensures SeenSizes(bs, p) == if h.classes.None? then (None, None, None)
                                else (Some(Atmost(256, WithParams(h.classes.value))), rest.0, rest.1)
  {
    hide At, SeenUvm, SizesSection, SectionCount, WithParams;
    if h.classes.Some? {
      var rows := WithParams(h.classes.value);
      assert SizesPart(h) == SizesSection(rows);
      SizesPresent(bs, p, rows);
    } else {
      assert SeenSizes(bs, p) == (None, None, None);
    }
  }

  lemma SizesPresent(bs: seq<Byte>, p: nat, rows: seq<ClassSize>)
    requires At(bs, p, SizesSection(rows)) && |bs| < 0x1_0000_0000
    ensures var rest := SeenUvm(bs, p + |SizesSection(rows)|);
            SeenSizes(bs, p) == (Some(Atmost(256, rows)), rest.0, rest.1)
  {
    hide At, SeenUvm, SizesSection;
    SizesHeader(bs, p, rows);
    SizesReadBack(bs, p + 8, rows);
    SizesSeen(bs, p, |rows|, rows, p + |SizesSection(rows)|);
  }

  lemma SizesSeen(bs: seq<Byte>, p: nat, n: U32, rows: seq<ClassSize>, q: nat)
    requires SectionCount(bs, p, ALLOC_SIZE_MAGIC) == Some(n) && p + 8 <= |bs| && SizesFrom(bs, p + 8, n) == (rows, q)
    ensures var rest := SeenUvm(bs, q); SeenSizes(bs, p) == (Some(Atmost(256, rows)), rest.0, rest.1)
  {
  }

  lemma SizesHeader(bs: seq<Byte>, p: nat, rows: seq<ClassSize>)
    requires At(bs, p, SizesSection(rows)) && |bs| < 0x1_0000_0000
    ensures SectionCount(bs, p, ALLOC_SIZE_MAGIC) == Some(|rows|)
    ensures At(bs, p + 8, Concat(SizeRecord, rows)) && |SizesSection(rows)| == 8 + |Concat(SizeRecord, rows)|
  {
    SizesCount(rows);
    HeaderReads(bs, p, ALLOC_SIZE_MAGIC, |rows|, Concat(SizeRecord, rows), UVM_CMD_MAGIC);
  }

  /** What the backend's sources give it: no file without path and content, no node without a name. */
  ghost predicate Sendable(h: Host) {
    && (forall f :: f in h.files ==> Named(f))
    && (forall d :: d in h.dri ==> d.name != [])
  }

  lemma {:induction false} DriCount(devs: seq<Dri>)
    ensures |Concat(DriRecord, devs)| >= 52 * |devs|
  {
    if devs != [] { DriCount(devs[1..]); }
  }

  /** The nodes, and what the guest makes of the sections behind them if it gets there. */
  lemma DriThen(bs: seq<Byte>, p: nat, devs: seq<Dri>, rest: (Option<seq<ClassSize>>, Option<seq<UvmCmd>>, Option<Osdesc>))
    requires At(bs, p, DriSection(devs)) && |bs| < ALLOC_SIZE_MAGIC && forall d :: d in devs ==> d.name != []
    requires SeenSizes(bs, p + |DriSection(devs)|) == rest
    ensures p + 4 <= |bs| && Read32(bs, p) == |devs|
    ensures var d := DriFrom(bs, p + 4, Min(|devs|, 8));
            && d.0 == ClippedDri(Atmost(8, devs))
            && SeenSizes(bs, d.1) == if |devs| <= 8 then rest else (None, None, None)
  {
    hide At, DriFrom, ClippedDri;
    DriPresent(bs, p, devs);
  }

  lemma DriPresent(bs: seq<Byte>, p: nat, devs: seq<Dri>)
    requires At(bs, p, DriSection(devs)) && |bs| < ALLOC_SIZE_MAGIC && forall d :: d in devs ==> d.name != []
    ensures p + 4 <= |bs| && Read32(bs, p) == |devs|
    ensures var d := DriFrom(bs, p + 4, Min(|devs|, 8));
            && d.0 == ClippedDri(Atmost(8, devs))
            && if |devs| <= 8 then d.1 == p + |DriSection(devs)| else SectionCount(bs, d.1, ALLOC_SIZE_MAGIC) == None
  {
    DriHeader(bs, p, devs);
    var n := Min(|devs|, 8);
    DriReadBack(bs, p + 4, devs, n);
    if |devs| <= 8 {
      assert devs[..n] == devs && devs[n..] == [];
    } else {
      NinthNode(bs, DriFrom(bs, p + 4, n).1, devs[n..]);
    }
  }

  lemma DriHeader(bs: seq<Byte>, p: nat, devs: seq<Dri>)
    requires At(bs, p, DriSection(devs)) && |bs| < ALLOC_SIZE_MAGIC
    ensures p + 4 <= |bs| && Read32(bs, p) == |devs|
    ensures At(bs, p + 4, Concat(DriRecord, devs)) && |DriSection(devs)| == 4 + |Concat(DriRecord, devs)|
  {
    hide DriRecord, LeBytes;
    AtBoth(bs, p, Words([AsU32(|devs|)]), Concat(DriRecord, devs));
    WordAt(bs, p, [AsU32(|devs|)], 0);
    DriCount(devs);
  }

  /** Where a section was expected there is another node: its first word is the length of a name. */
  lemma NinthNode(bs: seq<Byte>, p: nat, devs: seq<Dri>)
    requires At(bs, p, Concat(DriRecord, devs)) && devs != [] && |bs| < ALLOC_SIZE_MAGIC
    ensures SectionCount(bs, p, ALLOC_SIZE_MAGIC) == None
  {
    hide SectionCount;
    var d, rest := devs[0], Concat(DriRecord, devs[1..]);
    assert Concat(DriRecord, devs) == DriRecord(d) + rest;
    DriHead(bs, p, d, rest);
    WordAt(bs, p, [AsU32(|d.name|), d.major, d.minor, d.slot] + d.info, 0);
    NameIsNoMagic(bs, p, d);
  }

  lemma NameIsNoMagic(bs: seq<Byte>, p: nat, d: Dri)
    requires At(bs, p + 52, d.name) && Read32(bs, p) == AsU32(|d.name|) && |bs| < ALLOC_SIZE_MAGIC
    ensures SectionCount(bs, p, ALLOC_SIZE_MAGIC) == None
  {
  }

  /** Reading what the backend wrote, in a zeroed buffer with room for it, gives back all of it that
      the guest keeps: everything, unless a section is missing or there are more than eight nodes. */
  lemma StreamReadsBack(bs: seq<Byte>, h: Host, room: nat)
    requires bs == Stream(h) + Zeros(room) && |bs| < ALLOC_SIZE_MAGIC && Sendable(h)
    ensures Read(bs) == Expected(h)
  {
    hide SeenSizes, FilesSection, DriSection, SizesPart, UvmPart, OsdescPart, FilesFrom, DriFrom, ClippedFiles, ClippedDri, ExpectedSizes;
    var p, rest := |FilesSection(h.files)|, SizesPart(h) + (UvmPart(h) + OsdescPart(h));
    assert At(bs, 0, Stream(h));
    AtBoth(bs, 0, FilesSection(h.files), DriSection(h.dri) + rest);
    AtBoth(bs, p, DriSection(h.dri), rest);
    FilesReadBack(bs, 0, h.files, p);
    SizesTail(bs, p + |DriSection(h.dri)|, h);
    DriThen(bs, p, h.dri, ExpectedSizes(h));
    var d := DriFrom(bs, p + 4, Min(|h.dri|, 8));
    ReadIs(bs, ClippedFiles(h.files), p, d, SeenSizes(bs, d.1));
  }

  lemma ReadIs(bs: seq<Byte>, files: seq<File>, p: nat, d: (seq<Dri>, nat),
               rest: (Option<seq<ClassSize>>, Option<seq<UvmCmd>>, Option<Osdesc>))
    requires FilesFrom(bs, 0) == (files, p) && p + 4 <= |bs|
    requires DriFrom(bs, p + 4, Min(Read32(bs, p), 8)) == d && SeenSizes(bs, d.1) == rest
    ensures Read(bs) == Seen(files, Some(d.0), rest.0, rest.1, rest.2)
  {
  }

  /** So the later sections arrive exactly when they were sent behind all the earlier ones and the
      nodes were no more than eight. The sections' own magic words do not make them independent. */
  lemma SectionsArrive(bs: seq<Byte>, h: Host, room: nat)
    requires bs == Stream(h) + Zeros(room) && |bs| < ALLOC_SIZE_MAGIC && Sendable(h)
    ensures Read(bs).sizes.Some? <==> |h.dri| <= 8 && h.classes.Some?
    ensures Read(bs).uvm.Some? <==> |h.dri| <= 8 && h.classes.Some? && h.uvm.Some?
    ensures Read(bs).osdesc.Some? <==> |h.dri| <= 8 && h.classes.Some? && h.uvm.Some? && h.osdesc.Some?
  {
    hide Stream, Zeros, Read;
    StreamReadsBack(bs, h, room);
  }

  /** Nothing is lost or shortened of a host within the guest's limits. */
  ghost predicate Modest(h: Host) {
    && Sendable(h)
    && |h.dri| <= 8 && h.classes.Some? && h.uvm.Some? && h.osdesc.Some?
    && (forall f :: f in h.files ==> |f.path| <= 255)
    && (forall d :: d in h.dri ==> |d.name| <= 31)
    && |WithParams(h.classes.value)| <= 256 && |Rows(h.uvm.value)| <= 128
    && (forall c :: c in Rows(h.uvm.value) ==> InBlock(c))
  }

  lemma {:induction false} KeepAllFiles(files: seq<File>)
    requires forall f :: f in files ==> |f.path| <= 255
    ensures ClippedFiles(files) == files
  {
    if files != [] { KeepAllFiles(files[1..]); }
  }

  lemma {:induction false} KeepAllDri(devs: seq<Dri>)
    requires forall d :: d in devs ==> |d.name| <= 31
    ensures ClippedDri(devs) == devs
  {
    if devs != [] { KeepAllDri(devs[1..]); }
  }

  lemma {:induction false} KeepAllUvm(cmds: seq<UvmCmd>)
    requires forall c :: c in cmds ==> InBlock(c)
    ensures OnlyInBlock(cmds) == cmds
  {
    if cmds != [] { KeepAllUvm(cmds[1..]); }
  }

  lemma AllArrives(bs: seq<Byte>, h: Host, room: nat)
    requires bs == Stream(h) + Zeros(room) && |bs| < ALLOC_SIZE_MAGIC && Modest(h)
    ensures Read(bs) == Seen(h.files, Some(h.dri), Some(WithParams(h.classes.value)),
                             Some(Rows(h.uvm.value)), Some(Narrow(h.osdesc.value)))
  {
    hide Stream, Zeros, Read;
    StreamReadsBack(bs, h, room);
    KeepAllFiles(h.files);
    KeepAllDri(h.dri);
    KeepAllUvm(Rows(h.uvm.value));
  }

  // ---------------------------------------------------------------------
  // What is kept of each entry

  /** A file is kept whole but for a path past 255 bytes. */
  lemma {:induction false} FileIsKept(files: seq<File>, i: nat)
    requires i < |files|
    ensures |ClippedFiles(files)| == |files|
    ensures ClippedFiles(files)[i] == File(files[i].path[..Min(|files[i].path|, 255)], files[i].content)
  {
    if i > 0 {
      FileIsKept(files[1..], i - 1);
    } else {
      ClippedCount(files);
      assert files[0].path[..|files[0].path|] == files[0].path;
    }
  }

  lemma {:induction false} ClippedCount(files: seq<File>)
    ensures |ClippedFiles(files)| == |files|
  {
    if files != [] { ClippedCount(files[1..]); }
  }

  /** A node is kept whole but for a name past 31 bytes. */
  lemma {:induction false} NodeIsKept(devs: seq<Dri>, i: nat)
    requires i < |devs|
    ensures |ClippedDri(devs)| == |devs|
    ensures ClippedDri(devs)[i] == devs[i].(name := devs[i].name[..Min(|devs[i].name|, 31)])
  {
    if i > 0 {
      NodeIsKept(devs[1..], i - 1);
    } else {
      ClippedDriCount(devs);
      assert devs[0].name[..|devs[0].name|] == devs[0].name;
    }
  }

  lemma {:induction false} ClippedDriCount(devs: seq<Dri>)
    ensures |ClippedDri(devs)| == |devs|
  {
    if devs != [] { ClippedDriCount(devs[1..]); }
  }

  /** Places in a list, in its order. */
  ghost predicate InOrder(places: seq<nat>, n: nat) {
    && (forall k :: 0 <= k < |places| ==> places[k] < n)
    && (forall j, k :: 0 <= j < k < |places| ==> places[j] < places[k])
  }

  lemma OnePlaceMore(places: seq<nat>, n: nat)
    requires InOrder(places, n)
    ensures InOrder(places, n + 1) && InOrder(places + [n], n + 1)
    ensures forall i :: i in places + [n] <==> i in places || i == n
  {
  }

  lemma {:induction false} WithParamsNext(classes: seq<ClassSize>, c: ClassSize)
    ensures WithParams(classes + [c]) == WithParams(classes) + if c.paramsSize > 0 then [c] else []
  {
    if classes == [] {
      assert [c][1..] == [] && WithParams([]) == [];
    } else {
      WithParamsNext(classes[1..], c);
      assert (classes + [c])[1..] == classes[1..] + [c];
    }
  }

  /** The sizes sent are those of the classes that take parameters, each once and in the host's order. */
  lemma {:induction false} SizesAreOf(classes: seq<ClassSize>) returns (places: seq<nat>)
    ensures |places| == |WithParams(classes)| && InOrder(places, |classes|)
    ensures forall k :: 0 <= k < |places| ==> WithParams(classes)[k] == classes[places[k]]
    ensures forall i :: 0 <= i < |classes| ==> (i in places <==> classes[i].paramsSize != 0)
  {
    places := [];
    if classes != [] {
      hide WithParams, InOrder;
      var n := |classes| - 1;
      places := SizesAreOf(classes[..n]);
      InOrderBelow(places, n);
      OnePlaceMore(places, n);
      WithParamsNext(classes[..n], classes[n]);
      assert classes == classes[..n] + [classes[n]];
      if classes[n].paramsSize != 0 { places := places + [n]; }
    }
  }

  lemma InOrderBelow(places: seq<nat>, n: nat)
    requires InOrder(places, n)
    ensures forall k :: 0 <= k < |places| ==> places[k] < n
  {
  }

  /** NVGPU_UVM_FD_*: what the guest takes the word for. */
  ghost function KindRead(w: U32): Option<FdKind> {
    if w == 1 then Some(Ctl) else if w == 2 then Some(Uvm) else if w == 3 then Some(Foreign) else None
  }

  /** A row says of a command what the guest needs: its number and size, and its descriptor, if it has
      one, of the kind and at the place it has on the host. */
  ghost predicate RowTells(r: UvmCmd, c: HostUvm) {
    && r.num == c.num && r.paramsSize == c.paramsSize
    && if c.fds == [] then r.fdKind == 0
       else |c.fds| == 1 && KindRead(r.fdKind) == Some(c.fds[0].kind) && r.fdAt == Cut(c.fds[0].at)
  }

  lemma {:induction false} RowsNext(cmds: seq<HostUvm>, c: HostUvm)
    ensures Rows(cmds + [c]) == Rows(cmds) + RowOf(c)
  {
    if cmds == [] {
      assert [c][1..] == [] && Rows([]) == [];
    } else {
      RowsNext(cmds[1..], c);
      assert (cmds + [c])[1..] == cmds[1..] + [c];
    }
  }

  lemma RowTellsOfIt(c: HostUvm)
    ensures |RowOf(c)| == if |c.fds| <= 1 then 1 else 0
    ensures |c.fds| <= 1 ==> RowTells(RowOf(c)[0], c)
  {
  }

  /** The rows sent tell of the commands with at most one descriptor, each once and in the host's order. */
  lemma {:induction false} RowsAreOf(cmds: seq<HostUvm>) returns (places: seq<nat>)
    ensures |places| == |Rows(cmds)| && InOrder(places, |cmds|)
    ensures forall k :: 0 <= k < |places| ==> RowTells(Rows(cmds)[k], cmds[places[k]])
    ensures forall i :: 0 <= i < |cmds| ==> (i in places <==> |cmds[i].fds| <= 1)
  {
    places := [];
    if cmds != [] {
      hide Rows, RowOf, RowTells, InOrder;
      var n := |cmds| - 1;
      places := RowsAreOf(cmds[..n]);
      InOrderBelow(places, n);
      OnePlaceMore(places, n);
      RowsNext(cmds[..n], cmds[n]);
      RowTellsOfIt(cmds[n]);
      assert cmds == cmds[..n] + [cmds[n]];
      if |cmds[n].fds| <= 1 { places := places + [n]; }
    }
  }

  /** The words that open the three last sections, as they stand in memory. */
  lemma Magics(rows: seq<ClassSize>, cmds: seq<UvmCmd>, d: Osdesc)
    ensures SizesSection(rows)[..4] == [0x4c, 0x41, 0x56, 0x4e]
    ensures UvmSection(cmds)[..4] == [0x56, 0x55, 0x56, 0x4e]
    ensures Words(OsdescWords(d))[..4] == [0x44, 0x4f, 0x56, 0x4e]
  {
    hide AsU32;
    WordBytes(0x4e56_414c, 0x4c, 0x41, 0x56, 0x4e);
    WordBytes(0x4e56_5556, 0x56, 0x55, 0x56, 0x4e);
    WordBytes(0x4e56_4f44, 0x44, 0x4f, 0x56, 0x4e);
    FirstWord([ALLOC_SIZE_MAGIC, AsU32(|rows|)], Concat(SizeRecord, rows));
    FirstWord([UVM_CMD_MAGIC, AsU32(|cmds|)], Concat(UvmRecord, cmds));
    FirstWord(OsdescWords(d), []);
    assert Words(OsdescWords(d)) + [] == Words(OsdescWords(d));
  }

  lemma FirstWord(ws: seq<U32>, rest: seq<Byte>)
    requires ws != []
    ensures (Words(ws) + rest)[..4] == Le32(ws[0])
  {
  }

  lemma WordBytes(v: U32, a: Byte, b: Byte, c: Byte, e: Byte)
    requires v == a + 0x100 * b + 0x1_0000 * c + 0x100_0000 * e
    ensures Le32(v) == [a, b, c, e]
  {
    var v1, v2, v3 := v / 256, v / 256 / 256, v / 256 / 256 / 256;
    assert v1 == b + 0x100 * c + 0x1_0000 * e && v2 == c + 0x100 * e && v3 == e;
    assert LeBytes(v3, 1) == [e] + LeBytes(v3 / 256, 0);
    assert LeBytes(v2, 2) == [c] + LeBytes(v3, 1);
    assert LeBytes(v1, 3) == [b] + LeBytes(v2, 2);
    assert LeBytes(v, 4) == [a] + LeBytes(v1, 3);
  }
}
