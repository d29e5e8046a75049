/** Sizes and alignments of the driver's structs, computed from their declarations: when the
    computation gives an answer, and that the answer is a layout. */
module Layout {

  datatype Count = Literal(n: nat) | Constant(name: string)

  /** A field's type: a name, an array, or a pointer to anything. */
  datatype Ty = Named(name: string) | Array(count: Count, elem: Ty) | Pointer

  datatype Shape = Shape(size: nat, align: nat)

  datatype Table = Table(primitives: map<string, Shape>, structs: map<string, seq<Ty>>, consts: map<string, nat>)

  datatype Answer = Ok(shape: Shape) | UnknownType(name: string) | UnknownLength(name: string) | Recursive(name: string)

  function AlignUp(off: nat, align: nat): (r: nat)
    ensures off <= r
  {
    if align > 1 && off % align != 0 then off + (align - off % align) else off
  }

  function Max(a: nat, b: nat): nat {
    if a < b then b else a
  }

  function CountOf(tab: Table, c: Count): (n: int)
    ensures n >= -1
  {
    match c
    case Literal(n) => n
    case Constant(name) => if name in tab.consts then tab.consts[name] else -1
  }

  function NameOf(c: Count): string {
    match c
    case Literal(_) => ""
    case Constant(name) => name
  }

  /** Structs not yet being laid out: what the recursion uses up. */
  function Left(tab: Table, stack: set<string>): set<string> {
    tab.structs.Keys - stack
  }

  lemma LessLeft(tab: Table, stack: set<string>, name: string)
    requires name in tab.structs && name !in stack
    ensures |Left(tab, stack + {name})| < |Left(tab, stack)|
  {
    assert Left(tab, stack) == Left(tab, stack + {name}) + {name};
  }

  function LayoutOf(tab: Table, t: Ty, stack: set<string>): Answer
    decreases |Left(tab, stack)|, t
  {
    match t
    case Pointer => Ok(Shape(8, 8))
    case Array(c, elem) =>
      if CountOf(tab, c) < 0 then UnknownLength(NameOf(c))
      else
        var e := LayoutOf(tab, elem, stack);
        if e.Ok? then Ok(Shape(e.shape.size * CountOf(tab, c), e.shape.align)) else e
    case Named(n) =>
      if n in tab.primitives then Ok(tab.primitives[n])
      else if n !in tab.structs then UnknownType(n)
      else if n in stack then Recursive(n)
      else
        LessLeft(tab, stack, n);
        var r := FieldsOf(tab, tab.structs[n], stack + {n}, 0, 1);
        if r.Ok? then Ok(Shape(AlignUp(r.shape.size, r.shape.align), r.shape.align)) else r
  }

  /** The fields of a struct, from an offset and an alignment so far; no padding at the end yet. */
  function FieldsOf(tab: Table, fields: seq<Ty>, stack: set<string>, off: nat, align: nat): Answer
    decreases |Left(tab, stack)|, fields
  {
    if fields == [] then Ok(Shape(off, align))
    else
      var f := LayoutOf(tab, fields[0], stack);
      if !f.Ok? then f
      else FieldsOf(tab, fields[1..], stack, AlignUp(off, f.shape.align) + f.shape.size, Max(align, f.shape.align))
  }

  /** `layout`. */
  method Compute(tab: Table, t: Ty, stack: set<string>) returns (r: Answer)
    ensures r == LayoutOf(tab, t, stack)
    decreases |Left(tab, stack)|, t
  {
    if t.Named? && t.name in tab.primitives { return Ok(tab.primitives[t.name]); }
    if t.Array? {
      var count := CountOf(tab, t.count);
      if count < 0 { return UnknownLength(NameOf(t.count)); }
      r := Compute(tab, t.elem, stack);
      if r.Ok? { r := Ok(Shape(r.shape.size * count, r.shape.align)); }
      return;
    }
    if t.Pointer? { return Ok(Shape(8, 8)); }
    if t.name !in tab.structs { return UnknownType(t.name); }
    if t.name in stack { return Recursive(t.name); }
    LessLeft(tab, stack, t.name);
    r := ComputeFields(tab, tab.structs[t.name], stack + {t.name});
    if r.Ok? { r := Ok(Shape(AlignUp(r.shape.size, r.shape.align), r.shape.align)); }
  }

  /** The loop over a struct's fields. */
  method ComputeFields(tab: Table, fields: seq<Ty>, stack: set<string>) returns (r: Answer)
    ensures r == FieldsOf(tab, fields, stack, 0, 1)
    decreases |Left(tab, stack)|, fields
  {
    var off: nat, align: nat := 0, 1;
    for i := 0 to |fields|
      invariant FieldsOf(tab, fields, stack, 0, 1) == FieldsOf(tab, fields[i..], stack, off, align)
    {
      r := Compute(tab, fields[i], stack);
      if !r.Ok? { return; }
      off := AlignUp(off, r.shape.align) + r.shape.size;
      align := Max(align, r.shape.align);
    }
    r := Ok(Shape(off, align));
  }

  // ---------------------------------------------------------------------
  // When there is an answer

  /** The name a type is made of, if it has to be looked up. */
  function Base(tab: Table, t: Ty): (r: seq<string>)
    ensures |r| <= 1
  {
    match t
    case Pointer => []
    case Array(_, elem) => Base(tab, elem)
    case Named(n) => if n in tab.primitives then [] else [n]
  }

  /** Every array length in the type is known, and its name is declared. */
  predicate Known(tab: Table, t: Ty) {
    match t
    case Pointer => true
    case Array(c, elem) => CountOf(tab, c) >= 0 && Known(tab, elem)
    case Named(n) => n in tab.primitives || n in tab.structs
  }

  /** Struct `a` has a field made of struct `b`. */
  ghost predicate Holds(tab: Table, a: string, b: string) {
    a in tab.structs && exists f :: f in tab.structs[a] && Base(tab, f) == [b]
  }

  /** A way down into nested structs. */
  ghost predicate Chain(tab: Table, p: seq<string>) {
    |p| > 0 && forall i :: 0 <= i < |p| - 1 ==> Holds(tab, p[i], p[i + 1])
  }

  ghost predicate AllKnown(tab: Table, n: string) {
    n in tab.structs && forall f :: f in tab.structs[n] ==> Known(tab, f)
  }

  /** Nothing unknown on the way, and no struct met twice. */
  ghost predicate Clear(tab: Table, p: seq<string>, stack: set<string>) {
    && (forall i :: 0 <= i < |p| ==> AllKnown(tab, p[i]) && p[i] !in stack)
    && (forall i, j :: 0 <= i < j < |p| ==> p[i] != p[j])
  }

  ghost predicate Sound(tab: Table, t: Ty, stack: set<string>) {
    Known(tab, t) && forall p :: Chain(tab, p) && [p[0]] == Base(tab, t) ==> Clear(tab, p, stack)
  }

  lemma {:induction false} FieldsOk(tab: Table, fields: seq<Ty>, stack: set<string>, off: nat, align: nat)
    ensures FieldsOf(tab, fields, stack, off, align).Ok?
            <==> forall f :: f in fields ==> LayoutOf(tab, f, stack).Ok?
    decreases |fields|
  {
    if fields != [] {
      var f := LayoutOf(tab, fields[0], stack);
      assert forall g :: g in fields <==> g == fields[0] || g in fields[1..];
      if f.Ok? {
        FieldsOk(tab, fields[1..], stack, AlignUp(off, f.shape.align) + f.shape.size, Max(align, f.shape.align));
      } else {
        assert fields[0] in fields;
      }
    }
  }

  lemma StructOk(tab: Table, n: string, stack: set<string>)
    requires n !in tab.primitives
    ensures LayoutOf(tab, Named(n), stack).Ok?
            <==> n in tab.structs && n !in stack && forall f :: f in tab.structs[n] ==> LayoutOf(tab, f, stack + {n}).Ok?
  {
    if n in tab.structs && n !in stack { FieldsOk(tab, tab.structs[n], stack + {n}, 0, 1); }
  }

  /** An answer for a type is an answer for the struct it is made of. */
  lemma {:induction false} BaseOk(tab: Table, t: Ty, stack: set<string>)
    ensures LayoutOf(tab, t, stack).Ok? ==> Known(tab, t)
    ensures Base(tab, t) != [] && Known(tab, t) ==>
              (LayoutOf(tab, t, stack).Ok? <==> LayoutOf(tab, Named(Base(tab, t)[0]), stack).Ok?)
    ensures Base(tab, t) == [] && Known(tab, t) ==> LayoutOf(tab, t, stack).Ok?
    ensures Base(tab, t) != [] ==> Base(tab, t)[0] !in tab.primitives
    ensures Base(tab, t) != [] && Known(tab, t) ==> Base(tab, t)[0] in tab.structs
    decreases t
  {
    if t.Array? { BaseOk(tab, t.elem, stack); }
  }

  /** An answer means nothing on the way down is unknown or met again. */
  lemma {:induction false} OkIsClear(tab: Table, t: Ty, stack: set<string>, p: seq<string>)
    requires LayoutOf(tab, t, stack).Ok? && Chain(tab, p) && [p[0]] == Base(tab, t)
    ensures Clear(tab, p, stack)
    decreases |p|
  {
    var n := p[0];
    assert Base(tab, t)[0] == n;
    BaseOk(tab, t, stack);
    StructOk(tab, n, stack);
    forall f | f in tab.structs[n] ensures Known(tab, f) {
      BaseOk(tab, f, stack + {n});
    }
    if |p| > 1 {
      assert Holds(tab, p[0], p[1]);
      var f :| f in tab.structs[n] && Base(tab, f) == [p[1]];
      var rest := p[1..];
      assert forall i :: 0 <= i < |rest| - 1 ==> Holds(tab, rest[i], rest[i + 1]) by {
        forall i | 0 <= i < |rest| - 1 ensures Holds(tab, rest[i], rest[i + 1]) {
          assert Holds(tab, p[i + 1], p[i + 2]);
        }
      }
      OkIsClear(tab, f, stack + {n}, rest);
      ClearBehind(tab, n, rest, stack);
      assert p == [n] + rest;
    }
  }

  lemma ClearBehind(tab: Table, n: string, rest: seq<string>, stack: set<string>)
    requires AllKnown(tab, n) && n !in stack && Clear(tab, rest, stack + {n})
    ensures Clear(tab, [n] + rest, stack)
  {
  }

  lemma ChainBehind(tab: Table, n: string, p: seq<string>, f: Ty)
    requires n in tab.structs && f in tab.structs[n] && Chain(tab, p) && Base(tab, f) == [p[0]]
    ensures Chain(tab, [n] + p)
  {
  }

  /** Nothing unknown and nothing met again means there is an answer. */
  lemma {:induction false} SoundIsOk(tab: Table, t: Ty, stack: set<string>)
    requires Sound(tab, t, stack)
    ensures LayoutOf(tab, t, stack).Ok?
    decreases |Left(tab, stack)|
  {
    BaseOk(tab, t, stack);
    if Base(tab, t) != [] {
      var n := Base(tab, t)[0];
      assert [[n][0]] == Base(tab, t);
      assert Chain(tab, [n]);
      assert Clear(tab, [n], stack);
      assert AllKnown(tab, [n][0]) && [n][0] !in stack;
      LessLeft(tab, stack, n);
      forall f | f in tab.structs[n] ensures LayoutOf(tab, f, stack + {n}).Ok? {
        SoundInside(tab, t, stack, n, f);
        SoundIsOk(tab, f, stack + {n});
      }
      StructOk(tab, n, stack);
    }
  }

  lemma SoundInside(tab: Table, t: Ty, stack: set<string>, n: string, f: Ty)
    requires Sound(tab, t, stack) && Base(tab, t) == [n] && AllKnown(tab, n) && f in tab.structs[n]
    ensures Sound(tab, f, stack + {n})
  {
    forall p | Chain(tab, p) && [p[0]] == Base(tab, f) ensures Clear(tab, p, stack + {n}) {
      ChainBehind(tab, n, p, f);
      var q := [n] + p;
      assert [q[0]] == Base(tab, t);
      assert Clear(tab, q, stack);
      ClearAfter(tab, n, p, stack);
    }
  }

  lemma ClearAfter(tab: Table, n: string, p: seq<string>, stack: set<string>)
    requires Clear(tab, [n] + p, stack)
    ensures Clear(tab, p, stack + {n})
  {
    var q := [n] + p;
    forall i | 0 <= i < |p| ensures AllKnown(tab, p[i]) && p[i] !in stack + {n} {
      assert p[i] == q[i + 1] && q[0] != q[i + 1];
    }
    forall i, j | 0 <= i < j < |p| ensures p[i] != p[j] {
      assert q[i + 1] != q[j + 1];
    }
  }

  /** There is an answer exactly when every name and array length met on the way down is known and no
      struct holds itself, at any depth. A pointer is not a way down. */
  lemma AnswersExactly(tab: Table, t: Ty)
    ensures LayoutOf(tab, t, {}).Ok? <==> Sound(tab, t, {})
  {
    if Sound(tab, t, {}) { SoundIsOk(tab, t, {}); }
    if LayoutOf(tab, t, {}).Ok? {
      BaseOk(tab, t, {});
      forall p | Chain(tab, p) && [p[0]] == Base(tab, t) ensures Clear(tab, p, {}) {
        OkIsClear(tab, t, {}, p);
      }
    }
  }

  /** A struct has one layout, however deep inside others it is met. */
  lemma {:induction false} SameInside(tab: Table, t: Ty, outer: set<string>, inner: set<string>)
    requires outer <= inner && LayoutOf(tab, t, inner).Ok?
    ensures LayoutOf(tab, t, outer) == LayoutOf(tab, t, inner)
    decreases |Left(tab, inner)|, t
  {
    match t
    case Pointer =>
    case Array(_, elem) => SameInside(tab, elem, outer, inner);
    case Named(n) =>
      if n !in tab.primitives {
        LessLeft(tab, inner, n);
        SameFields(tab, tab.structs[n], outer + {n}, inner + {n}, 0, 1);
      }
  }

  lemma {:induction false} SameFields(tab: Table, fields: seq<Ty>, outer: set<string>, inner: set<string>, off: nat, align: nat)
    requires outer <= inner && FieldsOf(tab, fields, inner, off, align).Ok?
    ensures FieldsOf(tab, fields, outer, off, align) == FieldsOf(tab, fields, inner, off, align)
    decreases |Left(tab, inner)|, fields
  {
    if fields != [] {
      SameInside(tab, fields[0], outer, inner);
      var f := LayoutOf(tab, fields[0], inner).shape;
      SameFields(tab, fields[1..], outer, inner, AlignUp(off, f.align) + f.size, Max(align, f.align));
    }
  }

  // ---------------------------------------------------------------------
  // Arithmetic of alignments

  ghost predicate Times(x: int, a: int, k: int) {
    x == k * a
  }

  ghost predicate Multiple(x: int, a: int) {
    exists k :: Times(x, a, k)
  }

  lemma MultipleIs(x: int, a: int)
    requires a > 0
    ensures x % a == 0 <==> Multiple(x, a)
  {
    if x % a == 0 {
      assert Times(x, a, x / a);
    }
    if Multiple(x, a) {
      var k :| Times(x, a, k);
      TimesMod(a, k);
    }
  }

  lemma TimesMod(a: int, k: int)
    requires a > 0
    ensures (k * a) % a == 0
  {
    var q, r := (k * a) / a, (k * a) % a;
    assert r == (k - q) * a;
    AtLeast(k - q, a);
  }

  lemma AtLeast(d: int, a: int)
    requires a > 0
    ensures d >= 1 ==> d * a >= a
    ensures d <= -1 ==> d * a <= -a
  {
  }

  lemma MultipleSum(x: int, y: int, a: int)
    requires Multiple(x, a) && Multiple(y, a)
    ensures Multiple(x + y, a)
  {
    var j, k :| Times(x, a, j) && Times(y, a, k);
    assert Times(x + y, a, j + k);
  }

  lemma MultipleProduct(x: int, a: int, n: int)
    requires Multiple(x, a)
    ensures Multiple(n * x, a)
  {
    var k :| Times(x, a, k);
    assert n * (k * a) == (n * k) * a;
    assert Times(n * x, a, n * k);
  }

  lemma MultipleTrans(x: int, a: int, b: int)
    requires Multiple(x, a) && Multiple(a, b)
    ensures Multiple(x, b)
  {
    var k :| Times(x, a, k);
    MultipleProduct(a, b, k);
  }

  predicate PowerOfTwo(n: nat) {
    n == 1 || (n > 1 && n % 2 == 0 && PowerOfTwo(n / 2))
  }

  lemma {:induction false} PowersDivide(a: nat, b: nat)
    requires PowerOfTwo(a) && PowerOfTwo(b) && a <= b
    ensures Multiple(b, a)
    decreases b
  {
    if a == b {
      assert Times(b, a, 1);
    } else if a == 1 {
      assert Times(b, a, b);
    } else {
      PowersDivide(a / 2, b / 2);
      var k :| Times(b / 2, a / 2, k);
      assert Times(b, a, k) by {
        assert b == 2 * (b / 2) && a == 2 * (a / 2);
        assert 2 * (k * (a / 2)) == k * (2 * (a / 2));
      }
    }
  }

  /** Padding goes to the next multiple: no less, and less than one alignment further. */
  lemma AlignsUp(off: nat, align: nat)
    requires align > 0
    ensures Multiple(AlignUp(off, align), align) && off <= AlignUp(off, align) < off + align
  {
    var r := off % align;
    assert off == off / align * align + r;
    if r == 0 {
      assert Times(off, align, off / align);
    } else {
      assert Times(off + (align - r), align, off / align + 1);
    }
  }

  // ---------------------------------------------------------------------
  // The layout itself

  /** A value or a part of one, placed: its type, its own offset, size and alignment, and the parts it is
      made of: fields in declaration order, or the elements of an array. */
  datatype Part = Part(ty: Ty, off: nat, size: nat, align: nat, parts: seq<Part>)

  ghost predicate GoodPrimitives(tab: Table) {
    forall n :: n in tab.primitives ==> GoodShape(tab.primitives[n])
  }

  predicate GoodShape(s: Shape) {
    PowerOfTwo(s.align) && s.size % s.align == 0
  }

  /** A value of the type that starts at `base`, with all its parts at every depth. */
  ghost function Placed(tab: Table, t: Ty, stack: set<string>, base: nat): (p: Part)
    requires LayoutOf(tab, t, stack).Ok?
    ensures var s := LayoutOf(tab, t, stack).shape; p.ty == t && p.off == base && p.size == s.size && p.align == s.align
    decreases |Left(tab, stack)|, t, 1
  {
    var s := LayoutOf(tab, t, stack).shape;
    Part(t, base, s.size, s.align, PartsOf(tab, t, stack, base))
  }

  ghost function PartsOf(tab: Table, t: Ty, stack: set<string>, base: nat): seq<Part>
    requires LayoutOf(tab, t, stack).Ok?
    decreases |Left(tab, stack)|, t, 0
  {
    match t
    case Pointer => []
    case Array(c, elem) => Elements(tab, elem, stack, base, CountOf(tab, c))
    case Named(n) =>
      if n in tab.primitives then []
      else
        LessLeft(tab, stack, n);
        Fields(tab, tab.structs[n], stack + {n}, base, 0, 1)
  }

  ghost function Elements(tab: Table, elem: Ty, stack: set<string>, base: nat, n: nat): seq<Part>
    requires LayoutOf(tab, elem, stack).Ok?
    decreases |Left(tab, stack)|, elem, n + 2
  {
    if n == 0 then []
    else [Placed(tab, elem, stack, base)]
         + Elements(tab, elem, stack, base + LayoutOf(tab, elem, stack).shape.size, n - 1)
  }

  /** The fields of a struct at `base`, from an offset and an alignment so far. */
  ghost function Fields(tab: Table, fields: seq<Ty>, stack: set<string>, base: nat, off: nat, align: nat): seq<Part>
    requires FieldsOf(tab, fields, stack, off, align).Ok?
    decreases |Left(tab, stack)|, fields, 0
  {
    if fields == [] then []
    else
      var f := LayoutOf(tab, fields[0], stack).shape;
      var at := AlignUp(off, f.align);
      [Placed(tab, fields[0], stack, base + at)]
      + Fields(tab, fields[1..], stack, base, at + f.size, Max(align, f.align))
  }

  /** A struct's parts are its fields, one each, at their own size and alignment. */
  lemma {:induction false} FieldsAreParts(tab: Table, fields: seq<Ty>, stack: set<string>, base: nat, off: nat, align: nat, i: nat)
    requires FieldsOf(tab, fields, stack, off, align).Ok? && i < |fields|
    ensures var parts := Fields(tab, fields, stack, base, off, align);
            && |parts| == |fields| && LayoutOf(tab, fields[i], stack).Ok?
            && parts[i] == Placed(tab, fields[i], stack, parts[i].off)
    decreases |fields|
  {
    var f := LayoutOf(tab, fields[0], stack).shape;
    var next, most := AlignUp(off, f.align) + f.size, Max(align, f.align);
    if i > 0 {
      FieldsAreParts(tab, fields[1..], stack, base, next, most, i - 1);
    } else if |fields| > 1 {
      FieldsAreParts(tab, fields[1..], stack, base, next, most, 0);
    }
  }

  /** An array's parts are its elements, as many as it has. */
  lemma {:induction false} ElementsAreParts(tab: Table, elem: Ty, stack: set<string>, base: nat, n: nat, i: nat)
    requires LayoutOf(tab, elem, stack).Ok? && i < n
    ensures var parts, size := Elements(tab, elem, stack, base, n), LayoutOf(tab, elem, stack).shape.size;
            |parts| == n && parts[i] == Placed(tab, elem, stack, base + i * size)
    decreases n
  {
    var size := LayoutOf(tab, elem, stack).shape.size;
    if i > 0 {
      ElementsAreParts(tab, elem, stack, base + size, n - 1, i - 1);
      OneMore(i, size);
    } else if n > 1 {
      ElementsAreParts(tab, elem, stack, base + size, n - 1, 0);
    }
  }

  /** A part on its own alignment, with its own parts laid out in its bytes. */
  ghost predicate WellPlaced(p: Part)
    decreases p, 1
  {
    && p.align > 0 && p.off % p.align == 0 && p.size % p.align == 0
    && (p.parts == [] || Laid(p.parts, p.off, p.off + p.size, p.align))
  }

  /** Parts one after another between two offsets: each whole, none before the last one's end, and
      each at the first place of its own alignment; what is left over is less than `pad`. */
  ghost predicate Laid(parts: seq<Part>, lo: nat, hi: nat, pad: nat)
    decreases parts, 0
  {
    if parts == [] then lo <= hi < lo + pad
    else
      var p := parts[0];
      && WellPlaced(p) && lo <= p.off < lo + p.align
      && Laid(parts[1..], p.off + p.size, hi, pad)
  }

  lemma {:induction false} LaidBound(parts: seq<Part>, lo: nat, hi: nat, pad: nat)
    requires Laid(parts, lo, hi, pad)
    ensures lo <= hi
    decreases |parts|
  {
    if parts != [] { LaidBound(parts[1..], parts[0].off + parts[0].size, hi, pad); }
  }

  /** Laid parts lie inside, and no two share a byte, padding at their ends included. */
  lemma {:induction false} LaidApart(parts: seq<Part>, lo: nat, hi: nat, pad: nat, i: nat)
    requires Laid(parts, lo, hi, pad) && i < |parts|
    ensures WellPlaced(parts[i]) && lo <= parts[i].off && parts[i].off + parts[i].size <= hi
    ensures forall j :: i < j < |parts| ==> parts[i].off + parts[i].size <= parts[j].off
    decreases |parts|
  {
    var p, rest := parts[0], parts[1..];
    LaidBound(rest, p.off + p.size, hi, pad);
    if i == 0 {
      forall j | 0 < j < |parts| ensures p.off + p.size <= parts[j].off {
        LaidApart(rest, p.off + p.size, hi, pad, j - 1);
      }
    } else {
      LaidApart(rest, p.off + p.size, hi, pad, i - 1);
      assert rest[i - 1] == parts[i];
      forall j | i < j < |parts| ensures parts[i].off + parts[i].size <= parts[j].off {
        assert parts[j] == rest[j - 1];
      }
    }
  }

  /** A way down from a value to one of its parts, by index at each depth. */
  ghost predicate Way(p: Part, path: seq<nat>)
    decreases |path|
  {
    path == [] || (path[0] < |p.parts| && Way(p.parts[path[0]], path[1..]))
  }

  ghost function At(p: Part, path: seq<nat>): Part
    requires Way(p, path)
    decreases |path|
  {
    if path == [] then p else At(p.parts[path[0]], path[1..])
  }

  /** So it is at every depth: each field and element is on its own alignment and inside the value. */
  lemma {:induction false} EveryPart(p: Part, path: seq<nat>)
    requires WellPlaced(p) && Way(p, path)
    ensures var q := At(p, path);
            && WellPlaced(q) && q.off % q.align == 0
            && p.off <= q.off && q.off + q.size <= p.off + p.size
    decreases |path|
  {
    if path != [] {
      LaidApart(p.parts, p.off, p.off + p.size, p.align, path[0]);
      EveryPart(p.parts[path[0]], path[1..]);
    }
  }

  /** And at every depth two fields of one struct, or two elements of one array, are apart over their
      whole sizes, and so is everything inside the one from everything inside the other. */
  lemma SiblingsApart(p: Part, path: seq<nat>, i: nat, j: nat, inI: seq<nat>, inJ: seq<nat>)
    requires WellPlaced(p) && Way(p, path) && i < j < |At(p, path).parts|
    requires Way(At(p, path).parts[i], inI) && Way(At(p, path).parts[j], inJ)
    ensures var a, b := At(At(p, path).parts[i], inI), At(At(p, path).parts[j], inJ);
            a.off + a.size <= b.off
  {
    EveryPart(p, path);
    var q := At(p, path);
    LaidApart(q.parts, q.off, q.off + q.size, q.align, i);
    LaidApart(q.parts, q.off, q.off + q.size, q.align, j);
    EveryPart(q.parts[i], inI);
    EveryPart(q.parts[j], inJ);
  }

  /** Alignments stay powers of two and sizes multiples of them. */
  lemma {:induction false} ShapeIsSound(tab: Table, t: Ty, stack: set<string>)
    requires GoodPrimitives(tab) && LayoutOf(tab, t, stack).Ok?
    ensures var s := LayoutOf(tab, t, stack).shape; PowerOfTwo(s.align) && Multiple(s.size, s.align)
    decreases |Left(tab, stack)|, t
  {
    match t
    case Pointer =>
      assert PowerOfTwo(2) && PowerOfTwo(4) && PowerOfTwo(8);
      assert Times(8, 8, 1);
    case Array(c, elem) =>
      ShapeIsSound(tab, elem, stack);
      var e := LayoutOf(tab, elem, stack).shape;
      MultipleProduct(e.size, e.align, CountOf(tab, c));
    case Named(n) =>
      if n in tab.primitives {
        assert GoodShape(tab.primitives[n]);
        MultipleIs(tab.primitives[n].size, tab.primitives[n].align);
      } else {
        LessLeft(tab, stack, n);
        var r := FieldsOf(tab, tab.structs[n], stack + {n}, 0, 1).shape;
        AlignGrows(tab, tab.structs[n], stack + {n}, 0, 1);
        AlignsUp(r.size, r.align);
      }
  }

  /** The alignment of fields is a power of two and no smaller than any of theirs. */
  lemma {:induction false} AlignGrows(tab: Table, fields: seq<Ty>, stack: set<string>, off: nat, align: nat)
    requires GoodPrimitives(tab) && FieldsOf(tab, fields, stack, off, align).Ok? && PowerOfTwo(align)
    ensures var s := FieldsOf(tab, fields, stack, off, align).shape; PowerOfTwo(s.align) && align <= s.align
    decreases |Left(tab, stack)|, fields
  {
    if fields != [] {
      ShapeIsSound(tab, fields[0], stack);
      var f := LayoutOf(tab, fields[0], stack).shape;
      AlignGrows(tab, fields[1..], stack, AlignUp(off, f.align) + f.size, Max(align, f.align));
    }
  }

  /** A value placed on its alignment is well placed, and so is everything in it. */
  lemma {:induction false} LayoutIsSound(tab: Table, t: Ty, stack: set<string>, base: nat)
    requires GoodPrimitives(tab) && LayoutOf(tab, t, stack).Ok?
    requires Multiple(base, LayoutOf(tab, t, stack).shape.align)
    ensures WellPlaced(Placed(tab, t, stack, base))
    decreases |Left(tab, stack)|, t, 2
  {
    var s := LayoutOf(tab, t, stack).shape;
    ShapeIsSound(tab, t, stack);
    MultipleIs(base, s.align);
    MultipleIs(s.size, s.align);
    PartsAreSound(tab, t, stack, base);
  }

  lemma {:induction false} PartsAreSound(tab: Table, t: Ty, stack: set<string>, base: nat)
    requires GoodPrimitives(tab) && LayoutOf(tab, t, stack).Ok? && LayoutOf(tab, t, stack).shape.align > 0
    requires Multiple(base, LayoutOf(tab, t, stack).shape.align)
    ensures var s, parts := LayoutOf(tab, t, stack).shape, PartsOf(tab, t, stack, base);
            parts == [] || Laid(parts, base, base + s.size, s.align)
    decreases |Left(tab, stack)|, t, 1
  {
    match t
    case Pointer =>
    case Array(c, elem) => ElementsAreSound(tab, elem, stack, base, CountOf(tab, c), LayoutOf(tab, t, stack).shape.align);
    case Named(n) =>
      if n !in tab.primitives {
        LessLeft(tab, stack, n);
        FieldsAreSound(tab, tab.structs[n], stack + {n}, base, 0, 1);
      }
  }

  lemma {:induction false} ElementsAreSound(tab: Table, elem: Ty, stack: set<string>, base: nat, n: nat, pad: nat)
    requires GoodPrimitives(tab) && LayoutOf(tab, elem, stack).Ok? && pad > 0
    requires Multiple(base, LayoutOf(tab, elem, stack).shape.align)
    ensures Laid(Elements(tab, elem, stack, base, n), base, base + n * LayoutOf(tab, elem, stack).shape.size, pad)
    decreases |Left(tab, stack)|, elem, n + 3
  {
    if n > 0 {
      var e := LayoutOf(tab, elem, stack).shape;
      ShapeIsSound(tab, elem, stack);
      MultipleSum(base, e.size, e.align);
      LayoutIsSound(tab, elem, stack, base);
      ElementsAreSound(tab, elem, stack, base + e.size, n - 1, pad);
      OneMore(n, e.size);
    }
  }

  lemma OneMore(n: nat, size: nat)
    requires n > 0
    ensures size + (n - 1) * size == n * size
  {
  }

  /** The fields of a struct at `base`, and the padding behind the last of them. */
  lemma {:induction false} FieldsAreSound(tab: Table, fields: seq<Ty>, stack: set<string>, base: nat, off: nat, align: nat)
    requires GoodPrimitives(tab) && FieldsOf(tab, fields, stack, off, align).Ok? && PowerOfTwo(align)
    requires Multiple(base, FieldsOf(tab, fields, stack, off, align).shape.align)
    ensures var s := FieldsOf(tab, fields, stack, off, align).shape;
            Laid(Fields(tab, fields, stack, base, off, align), base + off, base + AlignUp(s.size, s.align), s.align)
    decreases |Left(tab, stack)|, fields, 0
  {
    hide LayoutOf, PartsOf, Placed, Laid, WellPlaced, Multiple, PowerOfTwo;
    if fields == [] {
      NoField(off, align, base);
    } else {
      var f := LayoutOf(tab, fields[0], stack).shape;
      var at := AlignUp(off, f.align);
      FieldAligned(tab, fields, stack, base, off, align);
      FieldsAreSound(tab, fields[1..], stack, base, at + f.size, Max(align, f.align));
      LayoutIsSound(tab, fields[0], stack, base + at);
      FieldThenRest(tab, fields, stack, base, off, align);
    }
  }

  lemma NoField(off: nat, align: nat, base: nat)
    requires PowerOfTwo(align)
    ensures Laid([], base + off, base + AlignUp(off, align), align)
  {
    AlignsUp(off, align);
  }

  lemma FieldThenRest(tab: Table, fields: seq<Ty>, stack: set<string>, base: nat, off: nat, align: nat)
    requires fields != [] && FieldsOf(tab, fields, stack, off, align).Ok?
    requires var f, s := LayoutOf(tab, fields[0], stack).shape, FieldsOf(tab, fields, stack, off, align).shape;
             var at := AlignUp(off, f.align);
             && at < off + f.align && WellPlaced(Placed(tab, fields[0], stack, base + at))
             && Laid(Fields(tab, fields[1..], stack, base, at + f.size, Max(align, f.align)),
                     base + (at + f.size), base + AlignUp(s.size, s.align), s.align)
    ensures var s := FieldsOf(tab, fields, stack, off, align).shape;
            Laid(Fields(tab, fields, stack, base, off, align), base + off, base + AlignUp(s.size, s.align), s.align)
  {
    hide LayoutOf, PartsOf, Laid, WellPlaced;
    var f, s := LayoutOf(tab, fields[0], stack).shape, FieldsOf(tab, fields, stack, off, align).shape;
    var at := AlignUp(off, f.align);
    LaidFront(Placed(tab, fields[0], stack, base + at), Fields(tab, fields[1..], stack, base, at + f.size, Max(align, f.align)),
              base + off, base + AlignUp(s.size, s.align), s.align);
  }

  lemma LaidFront(p: Part, rest: seq<Part>, lo: nat, hi: nat, pad: nat)
    requires WellPlaced(p) && lo <= p.off < lo + p.align && Laid(rest, p.off + p.size, hi, pad)
    ensures Laid([p] + rest, lo, hi, pad)
  {
    assert ([p] + rest)[1..] == rest;
  }

  /** The first of the fields is put on its own alignment, because the struct's is a multiple of it,
      and at the first such place. */
  lemma FieldAligned(tab: Table, fields: seq<Ty>, stack: set<string>, base: nat, off: nat, align: nat)
    requires fields != [] && GoodPrimitives(tab) && FieldsOf(tab, fields, stack, off, align).Ok? && PowerOfTwo(align)
    requires Multiple(base, FieldsOf(tab, fields, stack, off, align).shape.align)
    ensures var f := LayoutOf(tab, fields[0], stack).shape;
            && Multiple(base + AlignUp(off, f.align), f.align)
            && off <= AlignUp(off, f.align) < off + f.align
            && PowerOfTwo(Max(align, f.align))
  {
    var s := FieldsOf(tab, fields, stack, off, align).shape;
    var f := LayoutOf(tab, fields[0], stack).shape;
    ShapeIsSound(tab, fields[0], stack);
    AlignGrows(tab, fields[1..], stack, AlignUp(off, f.align) + f.size, Max(align, f.align));
    PowersDivide(f.align, s.align);
    MultipleTrans(base, s.align, f.align);
    AlignsUp(off, f.align);
    MultipleSum(base, AlignUp(off, f.align), f.align);
  }

  // ---------------------------------------------------------------------
  // What each part is by its type

  /** A part is what its type says: a pointer takes eight bytes, a primitive what the table gives it, an
      array as many elements as declared, and a struct its declared fields, with the alignment of the most
      aligned of them, or 1 if it has none that asks for more. */
  ghost predicate IsOfType(tab: Table, p: Part) {
    match p.ty
    case Pointer => p.size == 8 && p.align == 8 && p.parts == []
    case Array(c, elem) =>
      && |p.parts| == DeclaredCount(tab, c)
      && LayoutOf(tab, elem, {}).Ok?
      && p.align == LayoutOf(tab, elem, {}).shape.align
      && p.size == DeclaredCount(tab, c) * LayoutOf(tab, elem, {}).shape.size
      && forall i :: 0 <= i < |p.parts| ==> p.parts[i].ty == elem
    case Named(n) =>
      if n in tab.primitives then p.size == tab.primitives[n].size && p.align == tab.primitives[n].align && p.parts == []
      else
        && n in tab.structs && |p.parts| == |tab.structs[n]|
        && (forall i :: 0 <= i < |p.parts| ==> p.parts[i].ty == tab.structs[n][i] && p.parts[i].align <= p.align)
        && (p.align == 1 || exists i :: 0 <= i < |p.parts| && p.parts[i].align == p.align)
  }

  /** The number a declaration gives; what no table knows is no number. */
  ghost function DeclaredCount(tab: Table, c: Count): int {
    if c.Literal? then c.n else if c.name in tab.consts then tab.consts[c.name] else -1
  }

  /** The alignment of a list of fields is the one it began with or that of one of them, and none has more. */
  lemma {:induction false} AlignIsAttained(tab: Table, fields: seq<Ty>, stack: set<string>, base: nat, off: nat, align: nat)
    requires FieldsOf(tab, fields, stack, off, align).Ok?
    ensures var s, parts := FieldsOf(tab, fields, stack, off, align).shape, Fields(tab, fields, stack, base, off, align);
            && |parts| == |fields| && align <= s.align
            && (forall i :: 0 <= i < |parts| ==> parts[i].ty == fields[i] && parts[i].align <= s.align)
            && (s.align == align || exists i :: 0 <= i < |parts| && parts[i].align == s.align)
    decreases |fields|
  {
    if fields != [] {
      hide LayoutOf, PartsOf;
      var s := FieldsOf(tab, fields, stack, off, align).shape;
      var f := LayoutOf(tab, fields[0], stack).shape;
      var at := AlignUp(off, f.align);
      AlignIsAttained(tab, fields[1..], stack, base, at + f.size, Max(align, f.align));
      var rest := Fields(tab, fields[1..], stack, base, at + f.size, Max(align, f.align));
      var parts := Fields(tab, fields, stack, base, off, align);
      assert parts == [parts[0]] + rest;
      if s.align != align && s.align != f.align {
        var i :| 0 <= i < |rest| && rest[i].align == s.align;
        assert parts[i + 1].align == s.align;
      }
    }
  }

  lemma ArrayIsOfType(tab: Table, c: Count, elem: Ty, stack: set<string>, base: nat)
    requires LayoutOf(tab, Array(c, elem), stack).Ok?
    ensures IsOfType(tab, Placed(tab, Array(c, elem), stack, base))
  {
    hide Elements;
    var n := CountOf(tab, c);
    SameInside(tab, elem, {}, stack);
    ElementCount(tab, elem, stack, base, n);
    forall i | 0 <= i < n ensures Elements(tab, elem, stack, base, n)[i].ty == elem {
      ElementsAreParts(tab, elem, stack, base, n, i);
    }
  }

  lemma PlacedIsOfType(tab: Table, t: Ty, stack: set<string>, base: nat)
    requires LayoutOf(tab, t, stack).Ok?
    ensures IsOfType(tab, Placed(tab, t, stack, base))
  {
    hide Elements, Fields;
    match t
    case Pointer =>
    case Array(c, elem) => ArrayIsOfType(tab, c, elem, stack, base);
    case Named(n) =>
      if n !in tab.primitives {
        LessLeft(tab, stack, n);
        AlignIsAttained(tab, tab.structs[n], stack + {n}, base, 0, 1);
      }
  }

  lemma {:induction false} ElementCount(tab: Table, elem: Ty, stack: set<string>, base: nat, n: nat)
    requires LayoutOf(tab, elem, stack).Ok?
    ensures |Elements(tab, elem, stack, base, n)| == n
    decreases n
  {
    if n > 0 { ElementCount(tab, elem, stack, base + LayoutOf(tab, elem, stack).shape.size, n - 1); }
  }

  lemma OneFieldIsPlaced(tab: Table, fields: seq<Ty>, stack: set<string>, base: nat, i: nat)
    requires FieldsOf(tab, fields, stack, 0, 1).Ok? && i < |Fields(tab, fields, stack, base, 0, 1)|
    ensures var p := Fields(tab, fields, stack, base, 0, 1)[i];
            && i < |fields| && LayoutOf(tab, fields[i], stack).Ok?
            && p == Placed(tab, fields[i], stack, p.off)
  {
    hide LayoutOf, FieldsOf, PartsOf, Fields;
    AlignIsAttained(tab, fields, stack, base, 0, 1);
    FieldsAreParts(tab, fields, stack, base, 0, 1, i);
  }

  lemma OneElementIsPlaced(tab: Table, elem: Ty, stack: set<string>, base: nat, n: nat, i: nat)
    requires LayoutOf(tab, elem, stack).Ok? && i < |Elements(tab, elem, stack, base, n)|
    ensures var p := Elements(tab, elem, stack, base, n)[i]; p == Placed(tab, elem, stack, p.off)
  {
    hide LayoutOf, PartsOf, Elements;
    ElementCount(tab, elem, stack, base, n);
    ElementsAreParts(tab, elem, stack, base, n, i);
  }

  lemma OnePartIsPlaced(tab: Table, t: Ty, stack: set<string>, base: nat, i: nat) returns (u: Ty, inner: set<string>)
    requires LayoutOf(tab, t, stack).Ok? && i < |PartsOf(tab, t, stack, base)|
    ensures var p := PartsOf(tab, t, stack, base)[i];
            LayoutOf(tab, u, inner).Ok? && p == Placed(tab, u, inner, p.off)
  {
    hide Fields, Elements, Placed;
    match t
    case Pointer => assert false;
    case Array(c, elem) =>
      u, inner := elem, stack;
      OneElementIsPlaced(tab, elem, stack, base, CountOf(tab, c), i);
    case Named(n) =>
      LessLeft(tab, stack, n);
      OneFieldIsPlaced(tab, tab.structs[n], stack + {n}, base, i);
      u, inner := tab.structs[n][i], stack + {n};
  }

  /** Whatever is reached inside a value is itself a value of its type, placed. */
  lemma {:induction false} PartIsPlaced(tab: Table, t: Ty, stack: set<string>, base: nat, path: seq<nat>)
    returns (u: Ty, inner: set<string>)
    requires LayoutOf(tab, t, stack).Ok? && Way(Placed(tab, t, stack, base), path)
    ensures var q := At(Placed(tab, t, stack, base), path);
            LayoutOf(tab, u, inner).Ok? && q == Placed(tab, u, inner, q.off)
    decreases |path|
  {
    if path == [] {
      u, inner := t, stack;
    } else {
      hide LayoutOf, PartsOf;
      u, inner := OnePartIsPlaced(tab, t, stack, base, path[0]);
      u, inner := PartIsPlaced(tab, u, inner, PartsOf(tab, t, stack, base)[path[0]].off, path[1..]);
    }
  }

  /** The whole claim, for a value at any place its alignment allows: there is an answer exactly for
      sound declarations, and then every field and element at every depth is what its type says, on its own
      alignment and inside the value, and siblings are apart. */
  lemma LayoutTheorem(tab: Table, t: Ty, base: nat, path: seq<nat>)
    requires GoodPrimitives(tab) && Sound(tab, t, {})
    ensures LayoutOf(tab, t, {}).Ok?
    ensures var s := LayoutOf(tab, t, {}).shape;
            && PowerOfTwo(s.align) && s.size % s.align == 0
            && (base % s.align == 0 && Way(Placed(tab, t, {}, base), path) ==>
                  var q := At(Placed(tab, t, {}, base), path);
                  && IsOfType(tab, q) && q.align > 0 && q.off % q.align == 0 && q.size % q.align == 0
                  && base <= q.off && q.off + q.size <= base + s.size
                  && forall i, j :: 0 <= i < j < |q.parts| ==> q.parts[i].off + q.parts[i].size <= q.parts[j].off)
  {
    AnswersExactly(tab, t);
    var s := LayoutOf(tab, t, {}).shape;
    ShapeIsSound(tab, t, {});
    MultipleIs(s.size, s.align);
    MultipleIs(base, s.align);
    var p := Placed(tab, t, {}, base);
    if base % s.align == 0 && Way(p, path) {
      LayoutIsSound(tab, t, {}, base);
      EveryPart(p, path);
      var q := At(p, path);
      var u, inner := PartIsPlaced(tab, t, {}, base, path);
      PlacedIsOfType(tab, u, inner, q.off);
      forall i, j | 0 <= i < j < |q.parts| ensures q.parts[i].off + q.parts[i].size <= q.parts[j].off {
        LaidApart(q.parts, q.off, q.off + q.size, q.align, i);
      }
    }
  }
}
