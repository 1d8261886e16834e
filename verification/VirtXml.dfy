/** The cached fields of a domain file (VirtXml) and CPU pinning (bind_cpuids). */
module VirtXml {
  import opened Outcomes
  import opened XmlTree
  import opened CpuGroups

  // ---- the cached fields ----

  datatype Field = Name | Uuid | Kernel | Cmdline | Vcpu | Memory | Loader

  function PathOf(f: Field): Path {
    match f
    case Name => ["name"]
    case Uuid => ["uuid"]
    case Kernel => ["os", "kernel"]
    case Cmdline => ["os", "cmdline"]
    case Vcpu => ["vcpu"]
    case Memory => ["memory"]
    case Loader => ["os", "loader"]
  }

  /** The cached values. */
  datatype Cache = Cache(
    name: Content, uuid: Content, kernel: Content, cmdline: Content, vcpu: Content, memory: Content, loader: Content)
  {
    function Get(f: Field): Content {
      match f
      case Name => name
      case Uuid => uuid
      case Kernel => kernel
      case Cmdline => cmdline
      case Vcpu => vcpu
      case Memory => memory
      case Loader => loader
    }

    function With(f: Field, v: Content): (c: Cache)
      ensures c.Get(f) == v && forall g :: g != f ==> c.Get(g) == Get(g)
    {
      match f
      case Name => this.(name := v)
      case Uuid => this.(uuid := v)
      case Kernel => this.(kernel := v)
      case Cmdline => this.(cmdline := v)
      case Vcpu => this.(vcpu := v)
      case Memory => this.(memory := v)
      case Loader => this.(loader := v)
    }
  }

  /** The properties with a cached value that is not the text of an element, but for the emulator. */
  datatype Property = ImageFile | IoMode | CacheMode | LogFile | Sockets | Cores | Threads | QemuExec

  /** The tree, the cached text fields, and the cached properties; one that is None is not in the map. */
  datatype State = State(tree: Element, cache: Cache, properties: map<Property, string>)

  /** Every cached value is what the single-element lookup returns. */
  ghost predicate Agrees(st: State) {
    forall f: Field :: st.cache.Get(f) == GetText(st.tree, PathOf(f))
  }

  const DRIVER: Path := ["devices", "disk", "driver"]
  const SOURCE: Path := ["devices", "disk", "source"]

  /** element.get(name) of a looked-up element, under a property. */
  function Fetched(tree: Element, path: Path, name: string, p: Property): map<Property, string> {
    match Lookup(tree, path)
    case None => map[]
    case Some(e) => if name in e.attribs then map[p := e.attribs[name]] else map[]
  }

  /** load */
  function Loaded(tree: Element): State {
    State(tree, Cache(GetText(tree, PathOf(Name)), GetText(tree, PathOf(Uuid)), GetText(tree, PathOf(Kernel)),
                      GetText(tree, PathOf(Cmdline)), GetText(tree, PathOf(Vcpu)), GetText(tree, PathOf(Memory)),
                      GetText(tree, PathOf(Loader))),
          Fetched(tree, DRIVER, "io", IoMode) + Fetched(tree, DRIVER, "cache", CacheMode)
          + Fetched(tree, SOURCE, "file", ImageFile))
  }

  /** load dereferences the driver and the source of the disk. */
  function LoadError(tree: Element): Option<Error> {
    if Lookup(tree, DRIVER).Some? && Lookup(tree, SOURCE).Some? then None else Some(MissingAttribute)
  }

  /** a == b, which holds of equal numbers of both kinds */
  predicate PyEquals(a: Content, b: Content) {
    a == b || (a.Int? && b.Float? && a.n as real == b.x) || (a.Float? && b.Int? && a.x == b.n as real)
  }

  /** The memory setter converts numbers to text, the vcpu setter whole ones, the others none. */
  function Converted(f: Field, v: Content): Content {
    if v.Int? && (f == Memory || f == Vcpu) then Str(IntText(v.n))
    else if v.Float? && f == Memory then Str(IntText(Round(v.x)))
    else v
  }

  /** The property setters of the text fields. Setting kernel or cmdline to None deletes the element. */
  function SetField(st: State, f: Field, given: Content): State {
    var v := Converted(f, given);
    if PyEquals(st.cache.Get(f), v) then st
    else if v.Nothing? && (f == Kernel || f == Cmdline) then
      st.(tree := Delete(st.tree, PathOf(f)), cache := st.cache.With(f, Nothing))
    else
      match SetSingle(st.tree, PathOf(f), SetText(v))
      case None => st
      case Some(tree) => st.(tree := tree, cache := st.cache.With(f, v))
  }

  // ---- the other mutators ----

  /** One tree operation of a set_* method. */
  datatype Op =
    | AddOp(path: Path, attribs: map<string, string>, sub: seq<Element>, allowMulti: bool)
    | EditOp(path: Path, edit: Edit)

  /** The methods that change the tree without a cached text field. */
  datatype Setting =
    | HugepageParams(page: string)
    | HugepagePath(path: string)
    | CpuParams(param: string)
    | OvercommitParams(param: string)
    | MemNuma(local: bool)
    | Vsock(cid: string)
    | Disk(file: string)
    | Vtpm(path: string, log: string)
    | ExtraArgs(values: seq<string>)                                   // SSH port forwarding, SGX EPC sections
    | SetProperty(property: Property, setting: string)
    | BindCpuids(ids: seq<nat>)

  const COMMANDLINE := "{http://libvirt.org/schemas/domain/qemu/1.0}commandline"
  const ARG := "{http://libvirt.org/schemas/domain/qemu/1.0}arg"

  function Arg(value: string): Op { AddOp([COMMANDLINE, ARG], map["value" := value], [], true) }

  function Leaf(tag: string, attribs: map<string, string>): Element { Element(tag, Nothing, attribs, []) }

  /** The operations of bind_cpuids after the iothread: vcpu k is pinned to ids[k]. */
  function PinOps(ids: seq<nat>, vcpu: nat): seq<Op>
    decreases |ids|
  {
    if ids == [] then []
    else
      [AddOp(["cputune", "vcpupin"], map["vcpu" := Decimal(vcpu), "cpuset" := Decimal(ids[0])], [], true)]
      + PinOps(ids[1..], vcpu + 1)
  }

  /** Where a property lives. */
  function ElementOf(p: Property): Path {
    match p
    case ImageFile => SOURCE
    case IoMode => DRIVER
    case CacheMode => DRIVER
    case LogFile => ["devices", "console", "log"]
    case QemuExec => ["devices", "emulator"]
    case _ => ["cpu", "topology"]
  }

  function EditOf(p: Property, v: string): Edit {
    match p
    case ImageFile => SetAttrib("file", v)
    case IoMode => SetAttrib("io", v)
    case CacheMode => SetAttrib("cache", v)
    case LogFile => SetAttrib("file", v)
    case Sockets => SetAttrib("sockets", v)
    case Cores => SetAttrib("cores", v)
    case Threads => SetAttrib("threads", v)
    case QemuExec => SetText(Str(v))
  }

  /** f"{value}" of a cached property */
  function Shown(properties: map<Property, string>, p: Property): string {
    if p in properties then properties[p] else "None"
  }

  function OpsOf(properties: map<Property, string>, s: Setting): seq<Op> {
    match s
    case HugepageParams(page) =>
      if page == [] then []
      else [AddOp(["memoryBacking", "hugepages", "page"], map["unit" := page[1..], "size" := page[..1]], [], false)]
    case HugepagePath(path) =>
      [AddOp(["memoryBacking", "path"], map[], [], false), EditOp(["memoryBacking", "path"], SetText(Str(path)))]
    case CpuParams(param) => [Arg("-cpu"), Arg(param)]
    case OvercommitParams(param) => [Arg("-overcommit"), Arg(param)]
    case MemNuma(local) =>
      [AddOp(["numatune", "memory"], map[], [], false), EditOp(["numatune", "memory"], SetAttrib("mode", "strict")),
       EditOp(["numatune", "memory"], SetAttrib("nodeset", if local then "0" else "1"))]
    case Vsock(cid) =>
      [AddOp(["devices", "vsock", "cid"], map["auto" := "no", "address" := cid], [], false),
       EditOp(["devices", "vsock"], SetAttrib("model", "virtio"))]
    case Disk(file) =>
      var driver := map["name" := "qemu", "type" := "qcow2", "io" := Shown(properties, IoMode),
                        "cache" := Shown(properties, CacheMode), "iothread" := "2"];
      [AddOp(["devices", "disk"], map["type" := "file", "device" := "disk"],
             [Leaf("driver", driver),
              Leaf("source", map["file" := file]), Leaf("target", map["dev" := "vdb", "bus" := "virtio"])], true)]
    case Vtpm(path, log) =>
      [AddOp(["launchSecurity", "vtpm", "loader"], map[], [], false),
       EditOp(["launchSecurity", "vtpm", "loader"], SetText(Str(path))),
       AddOp(["launchSecurity", "vtpm", "log"], map[], [], false),
       EditOp(["launchSecurity", "vtpm", "log"], SetText(Str(log)))]
    case ExtraArgs(values) => seq(|values|, i requires 0 <= i < |values| => Arg(values[i]))
    case SetProperty(p, v) => [EditOp(ElementOf(p), EditOf(p, v))]
    case BindCpuids(ids) =>
      if |ids| <= 1 then []
      else
        [AddOp(["cputune", "iothreadpin"], map["iothread" := "1", "cpuset" := Decimal(ids[0])], [], true)]
        + PinOps(ids[1..], 0)
  }

  const HUGEPAGE_VALUES := ["2M", "1G"]

  /** A property that already has the value is not written. */
  predicate Skips(st: State, s: Setting) {
    s.SetProperty? && s.property in st.properties && st.properties[s.property] == s.setting
  }

  /** The exception of a set_* method: the assertions on the page size and on the CPU list, and the use of
      None where a disk or log setter does not find its element. */
  function Refusal(st: State, s: Setting): Option<Error> {
    match s
    case HugepageParams(page) => if page in HUGEPAGE_VALUES then None else Some(AssertionError)
    case BindCpuids(ids) => if |ids| > 1 then None else Some(AssertionError)
    case SetProperty(p, _) =>
      if p in {ImageFile, IoMode, CacheMode, LogFile} && !Skips(st, s) && Lookup(st.tree, ElementOf(p)).None?
      then Some(MissingAttribute) else None
    case _ => None
  }

  /** The cached properties after a set_* method that does not raise. */
  function PropertiesAfter(st: State, s: Setting): map<Property, string> {
    if s.SetProperty? && Lookup(st.tree, ElementOf(s.property)).Some? then st.properties[s.property := s.setting]
    else st.properties
  }

  function ApplyOp(tree: Element, op: Op): Element {
    if op.path == [] then tree
    else
      match op
      case AddOp(path, attribs, sub, allowMulti) => AddNew(tree, path, attribs, sub, allowMulti)
      case EditOp(path, edit) =>
        match SetSingle(tree, path, edit)
        case None => tree
        case Some(t) => t
  }

  function ApplyOps(tree: Element, ops: seq<Op>): Element
    decreases |ops|
  {
    if ops == [] then tree else ApplyOps(ApplyOp(tree, ops[0]), ops[1..])
  }

  // ---- the cache agrees with the tree ----

  /** An operation outside the top-level tags of the cached fields. */
  predicate Foreign(op: Op) {
    op.path != [] && !CachedTop(op.path[0])
  }

  predicate CachedTop(tag: string) { tag in ["name", "uuid", "os", "vcpu", "memory"] }

  /** The top-level tags that the set_* methods use. */
  lemma OtherTops()
    ensures !CachedTop("memoryBacking") && !CachedTop("numatune") && !CachedTop("devices") && !CachedTop("cputune")
    ensures !CachedTop("launchSecurity") && !CachedTop("cpu") && !CachedTop(COMMANDLINE)
  {
  }

  predicate AllForeign(ops: seq<Op>) { forall i :: 0 <= i < |ops| ==> Foreign(ops[i]) }

  lemma ForeignKeepsText(tree: Element, op: Op, f: Field)
    requires Foreign(op)
    ensures GetText(ApplyOp(tree, op), PathOf(f)) == GetText(tree, PathOf(f))
  {
    hide Lookup, AddNew, SetSingle;
    var q := PathOf(f);
    assert op.path[0] != q[0];
    match op
    case AddOp(path, attribs, sub, allowMulti) => AddKeepsApart(tree, path, attribs, sub, allowMulti, q);
    case EditOp(path, edit) =>
      assert Apart(path, q);
      if SetSingle(tree, path, edit).Some? { SetKeepsApart(tree, path, edit, q); }
  }

  lemma {:induction false} ForeignRunKeepsText(tree: Element, ops: seq<Op>, f: Field)
    requires AllForeign(ops)
    ensures GetText(ApplyOps(tree, ops), PathOf(f)) == GetText(tree, PathOf(f))
    decreases |ops|
  {
    hide GetText, ApplyOp, Foreign;
    if ops != [] {
      ForeignKeepsText(tree, ops[0], f);
      assert AllForeign(ops[1..]);
      ForeignRunKeepsText(ApplyOp(tree, ops[0]), ops[1..], f);
    }
  }

  lemma {:induction false} PinOpsForeign(ids: seq<nat>, vcpu: nat)
    ensures AllForeign(PinOps(ids, vcpu))
    decreases |ids|
  {
    hide Decimal;
    if ids != [] {
      PinOpsForeign(ids[1..], vcpu + 1);
      var first := PinOps(ids, vcpu)[0];
      assert Foreign(first);
    }
  }

  lemma BindForeign(properties: map<Property, string>, ids: seq<nat>)
    ensures AllForeign(OpsOf(properties, BindCpuids(ids)))
  {
    hide Decimal, PinOps, CachedTop;
    OtherTops();
    if |ids| > 1 {
      PinOpsForeign(ids[1..], 0);
      var first := OpsOf(properties, BindCpuids(ids))[0];
      assert Foreign(first);
    }
  }

  lemma SettingsForeign(properties: map<Property, string>, s: Setting)
    ensures AllForeign(OpsOf(properties, s))
  {
    if s.BindCpuids? {
      BindForeign(properties, s.ids);
    } else if s.SetProperty? {
      PropertyForeign(properties, s.property, s.setting);
    } else {
      hide Decimal, PinOps, CachedTop, ElementOf, EditOf, Shown;
      OtherTops();
      assert forall v :: Foreign(Arg(v));
    }
  }

  lemma PropertyForeign(properties: map<Property, string>, p: Property, v: string)
    ensures AllForeign(OpsOf(properties, SetProperty(p, v)))
  {
    hide CachedTop, EditOf;
    OtherTops();
  }

  /** The cached paths part from one another. */
  lemma FieldsApart(f: Field, g: Field)
    requires f != g
    ensures Apart(PathOf(f), PathOf(g))
  {
    assert PathOf(f)[1..] == (if |PathOf(f)| == 2 then [PathOf(f)[1]] else []);
    assert PathOf(g)[1..] == (if |PathOf(g)| == 2 then [PathOf(g)[1]] else []);
  }

  /** What a setter does to the tree: nothing, a deletion or an edit of its own path. */
  lemma SetterKeepsOthers(st: State, f: Field, given: Content, g: Field)
    requires f != g
    ensures GetText(SetField(st, f, given).tree, PathOf(g)) == GetText(st.tree, PathOf(g))
  {
    hide Lookup, SetSingle, Delete, PathOf, Converted;
    var path, v := PathOf(f), Converted(f, given);
    FieldsApart(f, g);
    if SetSingle(st.tree, path, SetText(v)).Some? { SetKeepsApart(st.tree, path, SetText(v), PathOf(g)); }
    PathNonempty(f);
    DeleteKeepsApart(st.tree, path, PathOf(g));
  }

  lemma PathNonempty(f: Field)
    ensures PathOf(f) != []
  {
  }

  /** A setter keeps the agreement. The lookup then gives the new value whenever the element was there,
      so the early return never skips a needed write; without the element nothing changes. */
  lemma SetFieldAgrees(st: State, f: Field, given: Content)
    requires Agrees(st)
    ensures Agrees(SetField(st, f, given))
    ensures Lookup(st.tree, PathOf(f)).Some? ==>
      PyEquals(GetText(SetField(st, f, given).tree, PathOf(f)), Converted(f, given))
    ensures Lookup(st.tree, PathOf(f)).None? ==> SetField(st, f, given) == st
  {
    hide Lookup, SetSingle, Delete, PathOf, Cache.Get, Cache.With, Converted;
    var path, out, v := PathOf(f), SetField(st, f, given), Converted(f, given);
    SetThenLookup(st.tree, path, SetText(v));
    if Lookup(st.tree, path).Some? { DeleteThenLookup(st.tree, path); }
    forall g: Field ensures out.cache.Get(g) == GetText(out.tree, PathOf(g)) {
      if g != f { SetterKeepsOthers(st, f, given, g); }
    }
  }

  datatype Call = Assign(field: Field, value: Content) | Change(setting: Setting)

  function Step(st: State, c: Call): State {
    match c
    case Assign(f, v) => SetField(st, f, v)
    case Change(s) =>
      if Refusal(st, s).Some? || Skips(st, s) then st
      else st.(tree := ApplyOps(st.tree, OpsOf(st.properties, s)), properties := PropertiesAfter(st, s))
  }

  lemma StepAgrees(st: State, c: Call)
    requires Agrees(st)
    ensures Agrees(Step(st, c))
  {
    hide GetText, ApplyOps, OpsOf, SetField, Cache.Get, Refusal, Skips, PropertiesAfter;
    match c
    case Assign(f, v) => SetFieldAgrees(st, f, v);
    case Change(s) =>
      SettingsForeign(st.properties, s);
      forall f: Field ensures GetText(Step(st, c).tree, PathOf(f)) == GetText(st.tree, PathOf(f)) {
        ForeignRunKeepsText(st.tree, OpsOf(st.properties, s), f);
      }
  }

  function RunCalls(st: State, cs: seq<Call>): State
    decreases |cs|
  {
    if cs == [] then st else RunCalls(Step(st, cs[0]), cs[1..])
  }

  lemma {:induction false} RunAgrees(st: State, cs: seq<Call>)
    requires Agrees(st)
    ensures Agrees(RunCalls(st, cs))
    decreases |cs|
  {
    hide Step, Agrees;
    if cs != [] {
      StepAgrees(st, cs[0]);
      RunAgrees(Step(st, cs[0]), cs[1..]);
    }
  }

  lemma LoadedAgrees(tree: Element)
    ensures Agrees(Loaded(tree))
  {
    hide GetText, Fetched, PathOf;
    forall f: Field ensures Loaded(tree).cache.Get(f) == GetText(tree, PathOf(f)) {}
  }

  /** After load and any sequence of setters and set_* calls every cached field equals what the
      lookup returns. */
  lemma CacheAgrees(tree: Element, cs: seq<Call>)
    ensures Agrees(RunCalls(Loaded(tree), cs))
  {
    hide Agrees, Loaded, RunCalls;
    LoadedAgrees(tree);
    RunAgrees(Loaded(tree), cs);
  }

  // ---- the fields by their tags ----

  /** The texts that libvirt finds under the documented elements of a domain. */
  function TextsOf(tree: Element): Cache {
    Cache(name := GetText(tree, ["name"]), uuid := GetText(tree, ["uuid"]), kernel := GetText(tree, ["os", "kernel"]),
          cmdline := GetText(tree, ["os", "cmdline"]), vcpu := GetText(tree, ["vcpu"]),
          memory := GetText(tree, ["memory"]), loader := GetText(tree, ["os", "loader"]))
  }

  /** Agreement, by the tags: the cached fields are those texts. */
  lemma AgreesByTag(st: State)
    ensures Agrees(st) <==> st.cache == TextsOf(st.tree)
  {
    hide GetText;
    var c := st.cache;
    if Agrees(st) {
      assert c.Get(Name) == GetText(st.tree, PathOf(Name)) && c.Get(Uuid) == GetText(st.tree, PathOf(Uuid));
      assert c.Get(Kernel) == GetText(st.tree, PathOf(Kernel)) && c.Get(Cmdline) == GetText(st.tree, PathOf(Cmdline));
      assert c.Get(Vcpu) == GetText(st.tree, PathOf(Vcpu)) && c.Get(Memory) == GetText(st.tree, PathOf(Memory));
      assert c.Get(Loader) == GetText(st.tree, PathOf(Loader));
    } else {
      var f: Field :| c.Get(f) != GetText(st.tree, PathOf(f));
    }
  }

  /** load caches the texts under the documented elements, and after any sequence of calls the cache still
      is those texts. */
  lemma CacheIsTexts(tree: Element, cs: seq<Call>)
    ensures Loaded(tree).cache == TextsOf(tree)
    ensures var st := RunCalls(Loaded(tree), cs); st.cache == TextsOf(st.tree)
  {
    hide Agrees, Loaded, RunCalls, TextsOf;
    LoadedAgrees(tree);
    AgreesByTag(Loaded(tree));
    CacheAgrees(tree, cs);
    AgreesByTag(RunCalls(Loaded(tree), cs));
    LoadKeepsTree(tree);
  }

  lemma LoadKeepsTree(tree: Element)
    ensures Loaded(tree).tree == tree
  {
    hide GetText, Fetched;
  }

  /** A setter given text changes that text in the domain and in the cache, and no other. */
  lemma SettersByTag(st: State, v: string)
    requires Agrees(st)
    ensures Lookup(st.tree, ["name"]).Some? ==>
      TextsOf(SetField(st, Name, Str(v)).tree) == TextsOf(st.tree).(name := Str(v))
    ensures Lookup(st.tree, ["uuid"]).Some? ==>
      TextsOf(SetField(st, Uuid, Str(v)).tree) == TextsOf(st.tree).(uuid := Str(v))
    ensures Lookup(st.tree, ["os", "kernel"]).Some? ==>
      TextsOf(SetField(st, Kernel, Str(v)).tree) == TextsOf(st.tree).(kernel := Str(v))
    ensures Lookup(st.tree, ["os", "cmdline"]).Some? ==>
      TextsOf(SetField(st, Cmdline, Str(v)).tree) == TextsOf(st.tree).(cmdline := Str(v))
    ensures Lookup(st.tree, ["vcpu"]).Some? ==>
      TextsOf(SetField(st, Vcpu, Str(v)).tree) == TextsOf(st.tree).(vcpu := Str(v))
    ensures Lookup(st.tree, ["memory"]).Some? ==>
      TextsOf(SetField(st, Memory, Str(v)).tree) == TextsOf(st.tree).(memory := Str(v))
    ensures Lookup(st.tree, ["os", "loader"]).Some? ==>
      TextsOf(SetField(st, Loader, Str(v)).tree) == TextsOf(st.tree).(loader := Str(v))
  {
    hide Lookup, Agrees, SetField, GetText;
    forall f: Field | Lookup(st.tree, PathOf(f)).Some? ensures WritesText(st, f, Str(v)) {
      SetterWrites(st, f, Str(v));
    }
    assert PathOf(Name) == ["name"] && PathOf(Uuid) == ["uuid"] && PathOf(Kernel) == ["os", "kernel"];
    assert PathOf(Cmdline) == ["os", "cmdline"] && PathOf(Vcpu) == ["vcpu"] && PathOf(Memory) == ["memory"];
    assert PathOf(Loader) == ["os", "loader"];
  }

  /** After assigning a text that needs no conversion the lookup of the field gives it, the others stay. */
  predicate WritesText(st: State, f: Field, v: Content) {
    var t := SetField(st, f, v).tree;
    && GetText(t, PathOf(f)) == v
    && (f != Name ==> GetText(t, PathOf(Name)) == GetText(st.tree, PathOf(Name)))
    && (f != Uuid ==> GetText(t, PathOf(Uuid)) == GetText(st.tree, PathOf(Uuid)))
    && (f != Kernel ==> GetText(t, PathOf(Kernel)) == GetText(st.tree, PathOf(Kernel)))
    && (f != Cmdline ==> GetText(t, PathOf(Cmdline)) == GetText(st.tree, PathOf(Cmdline)))
    && (f != Vcpu ==> GetText(t, PathOf(Vcpu)) == GetText(st.tree, PathOf(Vcpu)))
    && (f != Memory ==> GetText(t, PathOf(Memory)) == GetText(st.tree, PathOf(Memory)))
    && (f != Loader ==> GetText(t, PathOf(Loader)) == GetText(st.tree, PathOf(Loader)))
  }

  lemma SetterWrites(st: State, f: Field, v: Content)
    requires Agrees(st) && (v.Str? || v.Nothing?) && Lookup(st.tree, PathOf(f)).Some?
    ensures WritesText(st, f, v)
  {
    hide Lookup, Agrees, SetField, GetText, PathOf;
    SetFieldAgrees(st, f, v);
    forall g: Field | g != f ensures GetText(SetField(st, f, v).tree, PathOf(g)) == GetText(st.tree, PathOf(g)) {
      SetterKeepsOthers(st, f, v, g);
    }
  }

  /** Setting kernel or cmdline to None removes its element, and no other text changes. */
  lemma NoneDeletesByTag(st: State)
    requires Agrees(st)
    ensures GetText(st.tree, ["os", "kernel"]) != Nothing ==>
      var t := SetField(st, Kernel, Nothing).tree;
      Lookup(t, ["os", "kernel"]) == None && TextsOf(t) == TextsOf(st.tree).(kernel := Nothing)
    ensures GetText(st.tree, ["os", "cmdline"]) != Nothing ==>
      var t := SetField(st, Cmdline, Nothing).tree;
      Lookup(t, ["os", "cmdline"]) == None && TextsOf(t) == TextsOf(st.tree).(cmdline := Nothing)
  {
    AgreesByTag(st);
    hide Lookup, Agrees, GetText, Delete, SetSingle;
    if GetText(st.tree, ["os", "kernel"]) != Nothing {
      TextMeansElement(st.tree, ["os", "kernel"]);
      SetterWrites(st, Kernel, Nothing);
      DeleteThenLookup(st.tree, ["os", "kernel"]);
    }
    if GetText(st.tree, ["os", "cmdline"]) != Nothing {
      TextMeansElement(st.tree, ["os", "cmdline"]);
      SetterWrites(st, Cmdline, Nothing);
      DeleteThenLookup(st.tree, ["os", "cmdline"]);
    }
  }

  // ---- decimal text ----

  function Digit(n: nat): char
    requires n < 10
  {
    ('0' as int + n) as char
  }

  /** f"{n}" for a natural number */
  function Decimal(n: nat): string {
    if n < 10 then [Digit(n)] else Decimal(n / 10) + [Digit(n % 10)]
  }

  predicate IsDigits(s: string) { forall i :: 0 <= i < |s| ==> '0' <= s[i] <= '9' }

  /** The number that digits denote in base ten. */
  function DigitsValue(s: string): nat
    requires IsDigits(s)
  {
    if s == [] then 0 else 10 * DigitsValue(s[..|s| - 1]) + (s[|s| - 1] as int - '0' as int)
  }

  /** The text of a number is digits that denote it, without a leading zero. */
  lemma {:induction false} DecimalDenotes(n: nat)
    ensures var s := Decimal(n); s != [] && IsDigits(s) && DigitsValue(s) == n && (s[0] == '0' ==> n == 0)
  {
    var s := Decimal(n);
    if n < 10 {
      assert s[..0] == [];
    } else {
      DecimalDenotes(n / 10);
      assert s[..|s| - 1] == Decimal(n / 10);
    }
  }

  lemma DecimalInjective(a: nat, b: nat)
    requires Decimal(a) == Decimal(b)
    ensures a == b
  {
    DecimalDenotes(a);
    DecimalDenotes(b);
  }

  // ---- values of the memory and vcpu fields ----

  /** str(n) */
  function IntText(n: int): string { if n < 0 then "-" + Decimal(-n) else Decimal(n) }

  /** str(n) is the digits of its absolute value, behind a minus sign if it is negative. */
  lemma IntTextDenotes(n: int)
    ensures var s := IntText(n);
      if n < 0 then s != [] && s[0] == '-' && IsDigits(s[1..]) && DigitsValue(s[1..]) == -n
      else s != [] && IsDigits(s) && DigitsValue(s) == n
  {
    hide Decimal, DigitsValue;
    DecimalDenotes(if n < 0 then -n else n);
    if n < 0 { assert IntText(n)[1..] == Decimal(-n); }
  }

  /** Different numbers have different texts, so the early return on an equal text is one on an equal number. */
  lemma IntTextInjective(a: int, b: int)
    ensures IntText(a) == IntText(b) <==> a == b
  {
    hide IntText, DigitsValue;
    IntTextDenotes(a);
    IntTextDenotes(b);
  }

  /** round(x): to the nearest integer, halves to the even one. */
  function Round(x: real): (n: int)
    ensures -0.5 <= x - n as real <= 0.5
    ensures x - n as real == 0.5 || x - n as real == -0.5 ==> n % 2 == 0
  {
    var low := x.Floor;
    var part := x - low as real;
    if part < 0.5 || (part == 0.5 && low % 2 == 0) then low else low + 1
  }

  /** A whole number assigned to the memory or vcpu field that is there is what the lookup then gives as text,
      and assigning a number again changes nothing exactly when it is the same number. */
  lemma NumberIsStored(st: State, f: Field, n: int, m: int)
    requires Agrees(st) && Lookup(st.tree, PathOf(f)).Some? && (f == Memory || f == Vcpu)
    ensures var out := SetField(st, f, Int(n));
      && GetText(out.tree, PathOf(f)) == Str(IntText(n))
      && (SetField(out, f, Int(m)) == out <==> m == n)
  {
    hide Lookup, SetSingle, Delete, PathOf, Cache.Get, Cache.With, IntText;
    SetFieldAgrees(st, f, Int(n));
    IntTextInjective(m, n);
    var out := SetField(st, f, Int(n));
    assert Agrees(out) && out.cache.Get(f) == Str(IntText(n));
    SetFieldAgrees(out, f, Int(m));
    TextMeansElement(out.tree, PathOf(f));
  }

  /** Equal numbers of both kinds are one value to a setter that does not convert them, other numbers are not. */
  lemma NumbersByValue(st: State, n: int, x: real)
    requires Agrees(st) && Lookup(st.tree, ["name"]).Some?
    ensures st.cache.name == Int(n) ==> (SetField(st, Name, Float(x)) == st <==> x == n as real)
    ensures st.cache.name == Float(x) ==> (SetField(st, Name, Int(n)) == st <==> x == n as real)
    ensures st.cache.name == Int(n) && x != n as real ==>
      GetText(SetField(st, Name, Float(x)).tree, ["name"]) == Float(x)
  {
    hide Lookup, SetSingle, Agrees;
    SetFieldAgrees(st, Name, Float(x));
    SetFieldAgrees(st, Name, Int(n));
    AgreesByTag(st);
    SetThenLookup(st.tree, ["name"], SetText(Float(x)));
  }

  /** A fraction assigned to memory is stored as the text of the nearest whole number. */
  lemma FractionIsRounded(st: State, x: real)
    requires Agrees(st) && Lookup(st.tree, ["memory"]).Some?
    ensures GetText(SetField(st, Memory, Float(x)).tree, ["memory"]) == Str(IntText(Round(x)))
  {
    hide Lookup, SetSingle, Agrees, IntText;
    SetFieldAgrees(st, Memory, Float(x));
  }

  lemma TextMeansElement(tree: Element, path: Path)
    requires GetText(tree, path) != Nothing
    ensures Lookup(tree, path).Some?
  {
    hide Lookup;
  }

  /** A property set to a new value where its element is found: the lookup gives the edited element, and
      setting the value again is skipped. */
  lemma PropertyIsStored(st: State, p: Property, v: string)
    requires Lookup(st.tree, ElementOf(p)).Some? && !Skips(st, SetProperty(p, v))
    ensures var out := Step(st, Change(SetProperty(p, v)));
      && Lookup(out.tree, ElementOf(p)) == Some(Edited(Lookup(st.tree, ElementOf(p)).value, EditOf(p, v)))
      && Step(out, Change(SetProperty(p, v))) == out && Refusal(out, SetProperty(p, v)).None?
  {
    hide Lookup, SetSingle, ElementOf, EditOf;
    var ops := OpsOf(st.properties, SetProperty(p, v));
    assert ops[1..] == [] && ops[0] == EditOp(ElementOf(p), EditOf(p, v));
    ElementNonempty(p);
    SetThenLookup(st.tree, ElementOf(p), EditOf(p, v));
    assert ApplyOps(st.tree, ops) == ApplyOps(ApplyOp(st.tree, ops[0]), []) == ApplyOp(st.tree, ops[0]);
  }

  lemma ElementNonempty(p: Property)
    ensures ElementOf(p) != []
  {
  }

  // ---- pinning ----

  /** The children with a tag of the first element with another tag, such as the pins under cputune. */
  function Kids(tree: Element, top: string, tag: string): seq<Element> {
    var i := First(tree.children, top);
    if i < 0 then [] else FindAll(tree.children[i].children, tag)
  }

  function Pins(tree: Element, tag: string): seq<Element> { Kids(tree, "cputune", tag) }

  /** Adding a child that may be repeated puts it behind those with its tag. */
  lemma AddKid(tree: Element, top: string, leafTag: string, attribs: map<string, string>, sub: seq<Element>,
               tag: string)
    ensures Kids(AddNew(tree, [top, leafTag], attribs, sub, true), top, tag)
         == Kids(tree, top, tag) + (if leafTag == tag then [Element(leafTag, Nothing, attribs, sub)] else [])
  {
    hide FindAll;
    var path, leaf := [top, leafTag], Element(leafTag, Nothing, attribs, sub);
    assert path[1..] == [leafTag];
    var i := First(tree.children, top);
    var parent := if i < 0 then Element(top, Nothing, map[], []) else tree.children[i];
    AppendChild(parent.children, leaf, tag);
    var grown := parent.(children := parent.children + [leaf]);
    assert AddNew(parent, [leafTag], attribs, sub, true) == grown;
    if i < 0 {
      AppendChild(tree.children, grown, top);
      NoChildren(tag);
      FirstAppended(tree.children, grown);
    } else {
      FirstReplaced(tree.children, i, grown);
    }
  }

  lemma AddPin(tree: Element, leafTag: string, attribs: map<string, string>, tag: string)
    ensures Pins(AddNew(tree, ["cputune", leafTag], attribs, [], true), tag)
         == Pins(tree, tag) + (if leafTag == tag then [Leaf(leafTag, attribs)] else [])
  {
    hide Kids, AddNew;
    AddKid(tree, "cputune", leafTag, attribs, [], tag);
  }

  lemma NoChildren(tag: string)
    ensures FindAll([], tag) == []
  {
  }

  lemma {:induction false} FirstAppended(es: seq<Element>, x: Element)
    requires First(es, x.tag) < 0
    ensures First(es + [x], x.tag) == |es|
  {
    if es == [] {
      assert es + [x] == [x];
    } else {
      FirstAppended(es[1..], x);
      assert (es + [x])[1..] == es[1..] + [x];
    }
  }

  lemma {:induction false} FirstReplaced(es: seq<Element>, i: nat, x: Element)
    requires i < |es| && First(es, x.tag) == i
    ensures First(es[i := x], x.tag) == i
  {
    if i > 0 {
      FirstReplaced(es[1..], i - 1, x);
      assert es[i := x][1..] == es[1..][i - 1 := x];
    }
  }

  /** The vcpupin elements that bind_cpuids must add: vcpu k on ids[k]. */
  function VcpuPins(ids: seq<nat>, vcpu: nat): (r: seq<Element>)
    ensures |r| == |ids|
    decreases |ids|
  {
    if ids == [] then []
    else
      [Leaf("vcpupin", map["vcpu" := Decimal(vcpu), "cpuset" := Decimal(ids[0])])] + VcpuPins(ids[1..], vcpu + 1)
  }

  lemma {:induction false} PinRun(tree: Element, ids: seq<nat>, vcpu: nat, tag: string)
    ensures Pins(ApplyOps(tree, PinOps(ids, vcpu)), tag)
         == Pins(tree, tag) + (if tag == "vcpupin" then VcpuPins(ids, vcpu) else [])
    decreases |ids|
  {
    hide Pins, AddNew, Decimal;
    if ids == [] {
      assert Pins(tree, tag) + [] == Pins(tree, tag);
    } else {
      var ops := PinOps(ids, vcpu);
      var attribs := map["vcpu" := Decimal(vcpu), "cpuset" := Decimal(ids[0])];
      AddPin(tree, "vcpupin", attribs, tag);
      var mid := ApplyOp(tree, ops[0]);
      assert ops[1..] == PinOps(ids[1..], vcpu + 1);
      PinRun(mid, ids[1..], vcpu + 1, tag);
    }
  }

  /** bind_cpuids pins the I/O thread to the first CPU and vcpu k to CPU k + 1 of the list, behind the
      pins that were there. */
  lemma BindPins(properties: map<Property, string>, tree: Element, ids: seq<nat>)
    requires |ids| > 1
    ensures var out := ApplyOps(tree, OpsOf(properties, BindCpuids(ids)));
      && Pins(out, "vcpupin") == Pins(tree, "vcpupin") + VcpuPins(ids[1..], 0)
      && Pins(out, "iothreadpin")
         == Pins(tree, "iothreadpin") + [Leaf("iothreadpin", map["iothread" := "1", "cpuset" := Decimal(ids[0])])]
  {
    hide Pins, AddNew, Decimal;
    var attribs := map["iothread" := "1", "cpuset" := Decimal(ids[0])];
    var ops := OpsOf(properties, BindCpuids(ids));
    AddPin(tree, "iothreadpin", attribs, "vcpupin");
    AddPin(tree, "iothreadpin", attribs, "iothreadpin");
    var mid := ApplyOp(tree, ops[0]);
    assert ops[1..] == PinOps(ids[1..], 0);
    PinRun(mid, ids[1..], 0, "vcpupin");
    PinRun(mid, ids[1..], 0, "iothreadpin");
    var a, b := Pins(tree, "vcpupin"), Pins(mid, "iothreadpin");
    assert a + [] == a && b + [] == b;
  }

  lemma {:induction false} VcpuPinAt(ids: seq<nat>, vcpu: nat, k: nat)
    requires k < |ids|
    ensures VcpuPins(ids, vcpu)[k] == Leaf("vcpupin", map["vcpu" := Decimal(vcpu + k), "cpuset" := Decimal(ids[k])])
    decreases |ids|
  {
    hide Decimal;
    if k > 0 { VcpuPinAt(ids[1..], vcpu + 1, k - 1); }
  }

  /** element.get(name, "") */
  function Attr(e: Element, name: string): string {
    if name in e.attribs then e.attribs[name] else ""
  }

  lemma DecimalsDiffer(a: nat, b: nat)
    requires a != b
    ensures Decimal(a) != Decimal(b)
  {
    if Decimal(a) == Decimal(b) { DecimalInjective(a, b); assert false; }
  }

  /** With different CPUs in the list, as in a strided group, vcpu j has CPU j + 1 of the list, which is not
      the CPU of the I/O thread. */
  lemma PinIsApart(ids: seq<nat>, j: nat)
    requires Distinct(ids) && j < |ids| - 1
    ensures var a := VcpuPins(ids[1..], 0)[j];
      && Attr(a, "vcpu") == Decimal(j) && Attr(a, "cpuset") == Decimal(ids[j + 1])
      && Attr(a, "cpuset") != Decimal(ids[0])
  {
    hide Decimal, VcpuPins;
    VcpuPinAt(ids[1..], 0, j);
    DecimalsDiffer(ids[j + 1], ids[0]);
  }

  /** And no two vcpus share a number or a CPU. */
  lemma PinsDiffer(ids: seq<nat>, j: nat, k: nat)
    requires Distinct(ids) && j < k < |ids| - 1
    ensures var a, b := VcpuPins(ids[1..], 0)[j], VcpuPins(ids[1..], 0)[k];
      Attr(a, "vcpu") != Attr(b, "vcpu") && Attr(a, "cpuset") != Attr(b, "cpuset")
  {
    hide Decimal, VcpuPins, Attr;
    PinIsApart(ids, j);
    PinIsApart(ids, k);
    DecimalsDiffer(j, k);
    DecimalsDiffer(ids[j + 1], ids[k + 1]);
  }

  /** A strided group of distinct CPUs pins a machine of size - 1 vcpus in that way, one vcpu included. */
  lemma GroupPinsAreExclusive(cpus: seq<nat>, vms: nat, size: nat, groups: seq<seq<nat>>, i: nat)
    requires size * vms <= |cpus| && Distinct(cpus) && Strided(cpus, vms, size, groups)
    requires i < vms && size > 0
    ensures |groups[i]| == size
    ensures var g, pins := groups[i], VcpuPins(groups[i][1..], 0);
         && |pins| == size - 1
         && (forall j :: 0 <= j < size - 1 ==>
               Attr(pins[j], "vcpu") == Decimal(j) && Attr(pins[j], "cpuset") == Decimal(g[j + 1])
               && Attr(pins[j], "cpuset") != Decimal(g[0]))
         && (forall j, k :: 0 <= j < k < size - 1 ==>
               Attr(pins[j], "vcpu") != Attr(pins[k], "vcpu") && Attr(pins[j], "cpuset") != Attr(pins[k], "cpuset"))
  {
    hide Decimal, VcpuPins, Attr;
    GroupsPartition(cpus, vms, size, groups);
    var g := groups[i];
    var pins := VcpuPins(g[1..], 0);
    forall j | 0 <= j < size - 1
      ensures Attr(pins[j], "vcpu") == Decimal(j) && Attr(pins[j], "cpuset") == Decimal(g[j + 1])
      ensures Attr(pins[j], "cpuset") != Decimal(g[0])
    {
      PinIsApart(g, j);
    }
    forall j, k | 0 <= j < k < size - 1
      ensures Attr(pins[j], "vcpu") != Attr(pins[k], "vcpu") && Attr(pins[j], "cpuset") != Attr(pins[k], "cpuset")
    {
      PinsDiffer(g, j, k);
    }
  }

  // ---- the object ----

  class VirtXml {
    var tree: Element
    var cache: Cache
    var properties: map<Property, string>

    ghost function Value(): State
      reads this
    {
      State(tree, cache, properties)
    }

    constructor (st: State)
      ensures Value() == st
    {
      tree, cache, properties := st.tree, st.cache, st.properties;
    }

    /** load on a new object: the text fields, then the disk's driver and source. */
    static method Load(tree: Element) returns (x: VirtXml, error: Option<Error>)
      ensures fresh(x) && x.Value() == Loaded(tree) && Agrees(x.Value())
      ensures error == LoadError(tree)
    {
      hide GetText, Lookup, Fetched;
      x := new VirtXml(Loaded(tree));
      LoadedAgrees(tree);
      error := LoadError(tree);
    }

    /** _get_single_element_value: the walk pops one tag at a time. */
    method GetSingleElementValue(path: Path) returns (r: Content)
      ensures r == GetText(tree, path)
    {
      var parent, rest := tree, path;
      while rest != []
        invariant Lookup(parent, rest) == Lookup(tree, path)
        decreases |rest|
      {
        var items := FindAll(parent.children, rest[0]);
        if |items| != 1 { return Nothing; }
        rest := rest[1..];
        if rest == [] { return items[0].text; }
        parent := items[0];
      }
      return Nothing;
    }

    /** The property setters of the text fields. */
    method Assign(f: Field, given: Content)
      requires Agrees(Value())
      modifies this
      ensures Value() == SetField(old(Value()), f, given) && Agrees(Value())
    {
      SetFieldAgrees(Value(), f, given);
      hide Agrees, SetSingle, Delete, PathOf, Cache.Get, Cache.With, Converted, PyEquals;
      PathNonempty(f);
      var v := Converted(f, given);
      if PyEquals(cache.Get(f), v) { return; }
      if v.Nothing? && (f == Kernel || f == Cmdline) {
        tree := Delete(tree, PathOf(f));
        cache := cache.With(f, Nothing);
      } else {
        var changed := SetSingle(tree, PathOf(f), SetText(v));
        if changed.Some? {
          tree := changed.value;
          cache := cache.With(f, v);
        }
      }
    }

    /** The tree operations of one method, in their order. */
    method RunOps(ops: seq<Op>)
      modifies this`tree
      ensures tree == ApplyOps(old(tree), ops)
    {
      hide ApplyOp;
      var i := 0;
      assert ops[0..] == ops;
      while i < |ops|
        invariant 0 <= i <= |ops|
        invariant ApplyOps(tree, ops[i..]) == ApplyOps(old(tree), ops)
      {
        assert ops[i..][1..] == ops[i + 1..];
        tree := ApplyOp(tree, ops[i]);
        i := i + 1;
      }
    }

    /** The set_* methods and the property setters of the devices. */
    method Change(s: Setting) returns (error: Option<Error>)
      requires Agrees(Value())
      modifies this
      ensures error == Refusal(old(Value()), s)
      ensures Value() == Step(old(Value()), Call.Change(s)) && Agrees(Value())
    {
      StepAgrees(Value(), Call.Change(s));
      hide Agrees, ApplyOps, OpsOf, Refusal, Skips, PropertiesAfter;
      var st := State(tree, cache, properties);
      error := Refusal(st, s);
      if error.Some? || Skips(st, s) { return; }
      RunOps(OpsOf(properties, s));
      properties := PropertiesAfter(st, s);
    }
  }
}
