/** What the set_* methods and property setters of VirtXml leave in a domain, stated by the elements and
    attributes that libvirt reads. */
module DomainEffects {
  import opened Outcomes
  import opened XmlTree
  import opened VirtXml

  /** The tree after a call that changes it. */
  function After(st: State, s: Setting): Element { Step(st, Change(s)).tree }

  /** The call goes through: it neither raises nor is skipped. */
  predicate GoesThrough(st: State, s: Setting) { Refusal(st, s).None? && !Skips(st, s) }

  predicate HasAttrib(e: Option<Element>, name: string, value: string) {
    e.Some? && name in e.value.attribs && e.value.attribs[name] == value
  }

  // ---- one, two and three operations ----

  lemma OneOp(tree: Element, a: Op)
    ensures ApplyOps(tree, [a]) == ApplyOp(tree, a)
  {
    hide ApplyOp;
    assert [a][1..] == [];
    assert ApplyOps(ApplyOp(tree, a), []) == ApplyOp(tree, a);
  }

  lemma TwoOps(tree: Element, a: Op, b: Op)
    ensures ApplyOps(tree, [a, b]) == ApplyOp(ApplyOp(tree, a), b)
  {
    hide ApplyOp;
    assert [a, b][1..] == [b];
    OneOp(ApplyOp(tree, a), b);
  }

  lemma ThreeOps(tree: Element, a: Op, b: Op, c: Op)
    ensures ApplyOps(tree, [a, b, c]) == ApplyOp(ApplyOp(ApplyOp(tree, a), b), c)
  {
    hide ApplyOp;
    assert [a, b, c][1..] == [b, c];
    TwoOps(ApplyOp(tree, a), b, c);
  }

  lemma FourOps(tree: Element, a: Op, b: Op, c: Op, d: Op)
    ensures ApplyOps(tree, [a, b, c, d]) == ApplyOp(ApplyOp(ApplyOp(ApplyOp(tree, a), b), c), d)
  {
    hide ApplyOp;
    assert [a, b, c, d][1..] == [b, c, d];
    ThreeOps(ApplyOp(tree, a), b, c, d);
  }

  /** Adding an element and setting its text. */
  lemma AddWithText(tree: Element, path: Path, text: string)
    requires path != [] && AtMostOne(tree, path)
    ensures var t := ApplyOp(ApplyOp(tree, AddOp(path, map[], [], false)), EditOp(path, SetText(Str(text))));
      && GetText(t, path) == Str(text)
      && (forall q :: Apart(path, q) ==> Lookup(t, q) == Lookup(tree, q))
      && (forall q :: Apart(path, q) && AtMostOne(tree, q) ==> AtMostOne(t, q))
  {
    hide Lookup, AddNew, SetSingle, AtMostOne, Apart;
    AddThenLookup(tree, path, map[], []);
    var mid := AddNew(tree, path, map[], [], false);
    TextIsSet(mid, path, Str(text));
    forall q | Apart(path, q) ensures Lookup(SetSingle(mid, path, SetText(Str(text))).value, q) == Lookup(tree, q) {
      AddKeepsApart(tree, path, map[], [], false, q);
      SetKeepsApart(mid, path, SetText(Str(text)), q);
    }
    forall q | Apart(path, q) && AtMostOne(tree, q)
      ensures AtMostOne(SetSingle(mid, path, SetText(Str(text))).value, q)
    {
      AddKeepsUnambiguous(tree, path, map[], [], false, q);
      SetKeepsUnambiguous(mid, path, SetText(Str(text)), q);
    }
  }

  // ---- the methods ----

  /** set_hugepage_params takes 2M and 1G only, and splits them into size and unit. */
  lemma HugepagesByTag(st: State, page: string)
    ensures GoesThrough(st, HugepageParams(page)) <==> page == "2M" || page == "1G"
    ensures AtMostOne(st.tree, ["memoryBacking", "hugepages", "page"]) && page == "2M" ==>
      var e := Lookup(After(st, HugepageParams(page)), ["memoryBacking", "hugepages", "page"]);
      HasAttrib(e, "size", "2") && HasAttrib(e, "unit", "M")
    ensures AtMostOne(st.tree, ["memoryBacking", "hugepages", "page"]) && page == "1G" ==>
      var e := Lookup(After(st, HugepageParams(page)), ["memoryBacking", "hugepages", "page"]);
      HasAttrib(e, "size", "1") && HasAttrib(e, "unit", "G")
  {
    hide Lookup, AddNew, AtMostOne, ApplyOps;
    var path := ["memoryBacking", "hugepages", "page"];
    if page == "2M" || page == "1G" {
      var attribs := map["unit" := page[1..], "size" := page[..1]];
      OneOp(st.tree, AddOp(path, attribs, [], false));
      AddThenLookup(st.tree, path, attribs, []);
      assert "2M"[1..] == "M" && "2M"[..1] == "2" && "1G"[1..] == "G" && "1G"[..1] == "1";
    }
  }

  /** set_hugepage_path */
  lemma HugepagePathByTag(st: State, path: string)
    requires AtMostOne(st.tree, ["memoryBacking", "path"])
    ensures GetText(After(st, HugepagePath(path)), ["memoryBacking", "path"]) == Str(path)
  {
    hide GetText, AtMostOne, ApplyOps, ApplyOp;
    var p := ["memoryBacking", "path"];
    TwoOps(st.tree, AddOp(p, map[], [], false), EditOp(p, SetText(Str(path))));
    AddWithText(st.tree, p, path);
  }

  /** set_mem_numa: a strict policy on node 0 for local memory and on node 1 for remote memory. */
  lemma MemNumaByTag(st: State, local: bool)
    requires AtMostOne(st.tree, ["numatune", "memory"])
    ensures var e := Lookup(After(st, MemNuma(local)), ["numatune", "memory"]);
      HasAttrib(e, "mode", "strict") && HasAttrib(e, "nodeset", if local then "0" else "1")
  {
    hide Lookup, AddNew, SetSingle, AtMostOne, ApplyOps;
    var p, node := ["numatune", "memory"], if local then "0" else "1";
    ThreeOps(st.tree, AddOp(p, map[], [], false), EditOp(p, SetAttrib("mode", "strict")),
             EditOp(p, SetAttrib("nodeset", node)));
    AddThenLookup(st.tree, p, map[], []);
    var t := AddNew(st.tree, p, map[], [], false);
    AttribIsSet(t, p, "mode", "strict");
    AttribIsSet(SetSingle(t, p, SetAttrib("mode", "strict")).value, p, "nodeset", node);
  }

  /** set_vsock */
  lemma VsockByTag(st: State, cid: string)
    requires AtMostOne(st.tree, ["devices", "vsock", "cid"])
    ensures var t := After(st, Vsock(cid));
      && HasAttrib(Lookup(t, ["devices", "vsock", "cid"]), "auto", "no")
      && HasAttrib(Lookup(t, ["devices", "vsock", "cid"]), "address", cid)
      && HasAttrib(Lookup(t, ["devices", "vsock"]), "model", "virtio")
  {
    hide AddNew, SetSingle, AtMostOne, ApplyOps, Lookup;
    var p, q := ["devices", "vsock", "cid"], ["devices", "vsock"];
    var attribs := map["auto" := "no", "address" := cid];
    TwoOps(st.tree, AddOp(p, attribs, [], false), EditOp(q, SetAttrib("model", "virtio")));
    AddThenLookup(st.tree, p, attribs, []);
    var t := AddNew(st.tree, p, attribs, [], false);
    assert q + ["cid"] == p;
    PrefixFound(t, q, ["cid"]);
    AttribIsSet(t, q, "model", "virtio");
    AttribKeepsInside(t, q, "model", "virtio", ["cid"]);
  }

  /** An element is found along the way to one inside it. */
  lemma {:induction false} PrefixFound(e: Element, path: Path, q: Path)
    requires path != [] && q != [] && Lookup(e, path + q).Some?
    ensures Lookup(e, path).Some?
    decreases |path|
  {
    hide FindAll;
    assert (path + q)[0] == path[0] && (path + q)[1..] == path[1..] + q;
    if |path| > 1 { PrefixFound(FindAll(e.children, path[0])[0], path[1..], q); }
  }

  /** set_vtpm_param */
  lemma VtpmByTag(st: State, path: string, log: string)
    requires AtMostOne(st.tree, ["launchSecurity", "vtpm", "loader"])
    requires AtMostOne(st.tree, ["launchSecurity", "vtpm", "log"])
    ensures var t := After(st, Vtpm(path, log));
      && GetText(t, ["launchSecurity", "vtpm", "loader"]) == Str(path)
      && GetText(t, ["launchSecurity", "vtpm", "log"]) == Str(log)
  {
    var p, q := ["launchSecurity", "vtpm", "loader"], ["launchSecurity", "vtpm", "log"];
    hide GetText, AtMostOne, ApplyOps, ApplyOp, Apart, After, Lookup;
    VtpmApart();
    var a, b := AddOp(p, map[], [], false), EditOp(p, SetText(Str(path)));
    var c, d := AddOp(q, map[], [], false), EditOp(q, SetText(Str(log)));
    FourOps(st.tree, a, b, c, d);
    var mid := ApplyOp(ApplyOp(st.tree, a), b);
    AddWithText(st.tree, p, path);
    AddWithText(mid, q, log);
    var t := ApplyOp(ApplyOp(mid, c), d);
    SameLookup(t, mid, p);
    VtpmRuns(st, path, log);
  }

  lemma VtpmRuns(st: State, path: string, log: string)
    ensures var p, q := ["launchSecurity", "vtpm", "loader"], ["launchSecurity", "vtpm", "log"];
      After(st, Vtpm(path, log))
      == ApplyOps(st.tree, [AddOp(p, map[], [], false), EditOp(p, SetText(Str(path))),
                            AddOp(q, map[], [], false), EditOp(q, SetText(Str(log)))])
  {
    hide ApplyOps;
  }

  lemma SameLookup(a: Element, b: Element, path: Path)
    requires Lookup(a, path) == Lookup(b, path)
    ensures GetText(a, path) == GetText(b, path)
  {
    hide Lookup;
  }

  lemma VtpmApart()
    ensures Apart(["launchSecurity", "vtpm", "loader"], ["launchSecurity", "vtpm", "log"])
    ensures Apart(["launchSecurity", "vtpm", "log"], ["launchSecurity", "vtpm", "loader"])
  {
    var p, q := ["launchSecurity", "vtpm", "loader"], ["launchSecurity", "vtpm", "log"];
    assert p[1..] == ["vtpm", "loader"] && q[1..] == ["vtpm", "log"];
    assert p[1..][1..] == ["loader"] && q[1..][1..] == ["log"];
  }

  /** bind_cpuids needs two CPUs at least: the first for the I/O thread, the others for vcpus 0, 1 and so on. */
  lemma BindByTag(st: State, ids: seq<nat>)
    ensures GoesThrough(st, BindCpuids(ids)) <==> |ids| > 1
    ensures |ids| > 1 ==>
      var t := After(st, BindCpuids(ids));
      && Kids(t, "cputune", "iothreadpin") == Kids(st.tree, "cputune", "iothreadpin")
           + [Element("iothreadpin", Nothing, map["iothread" := "1", "cpuset" := Decimal(ids[0])], [])]
      && Kids(t, "cputune", "vcpupin") == Kids(st.tree, "cputune", "vcpupin")
           + seq(|ids| - 1, k requires 0 <= k < |ids| - 1 =>
               Element("vcpupin", Nothing, map["vcpu" := Decimal(k), "cpuset" := Decimal(ids[k + 1])], []))
    ensures |ids| <= 1 ==> After(st, BindCpuids(ids)) == st.tree
  {
    hide Kids, Decimal, ApplyOps, PinOps;
    if |ids| > 1 {
      BindPins(st.properties, st.tree, ids);
      var pins := VcpuPins(ids[1..], 0);
      forall k | 0 <= k < |ids| - 1
        ensures pins[k] == Element("vcpupin", Nothing, map["vcpu" := Decimal(k), "cpuset" := Decimal(ids[k + 1])], [])
      {
        VcpuPinAt(ids[1..], 0, k);
      }
      assert pins == seq(|ids| - 1, k requires 0 <= k < |ids| - 1 =>
        Element("vcpupin", Nothing, map["vcpu" := Decimal(k), "cpuset" := Decimal(ids[k + 1])], []));
    }
  }

  // ---- lists of arguments and disks ----

  const QEMU := "{http://libvirt.org/schemas/domain/qemu/1.0}"

  /** The arguments that QEMU gets from the domain, as elements. */
  function Arguments(tree: Element): seq<Element> { Kids(tree, QEMU + "commandline", QEMU + "arg") }

  function Argument(value: string): Element { Element(QEMU + "arg", Nothing, map["value" := value], []) }

  lemma ArgTags()
    ensures COMMANDLINE == QEMU + "commandline" && ARG == QEMU + "arg"
  {
  }

  lemma ArgIsAdded(tree: Element, value: string)
    ensures Arguments(ApplyOp(tree, Arg(value))) == Arguments(tree) + [Argument(value)]
  {
    hide AddNew, Kids;
    ArgTags();
    AddKid(tree, COMMANDLINE, ARG, map["value" := value], [], ARG);
  }

  /** Extra arguments are handed to QEMU behind those that were there, in their order. */
  lemma {:induction false} ArgsAreAdded(tree: Element, values: seq<string>)
    ensures var ops := seq(|values|, i requires 0 <= i < |values| => Arg(values[i]));
      Arguments(ApplyOps(tree, ops))
      == Arguments(tree) + seq(|values|, i requires 0 <= i < |values| => Argument(values[i]))
    decreases |values|
  {
    hide ApplyOp, Kids;
    var ops := seq(|values|, i requires 0 <= i < |values| => Arg(values[i]));
    var args := seq(|values|, i requires 0 <= i < |values| => Argument(values[i]));
    if values == [] {
      assert Arguments(tree) + args == Arguments(tree);
    } else {
      var rest := values[1..];
      ArgIsAdded(tree, values[0]);
      ArgsAreAdded(ApplyOp(tree, ops[0]), rest);
      assert ops[1..] == seq(|rest|, i requires 0 <= i < |rest| => Arg(rest[i]));
      assert args == [Argument(values[0])] + seq(|rest|, i requires 0 <= i < |rest| => Argument(rest[i]));
    }
  }

  /** set_cpu_params, set_overcommit_params and the methods with several arguments. */
  lemma ArgumentsByTag(st: State, param: string, values: seq<string>)
    ensures Arguments(After(st, CpuParams(param))) == Arguments(st.tree) + [Argument("-cpu"), Argument(param)]
    ensures Arguments(After(st, OvercommitParams(param)))
         == Arguments(st.tree) + [Argument("-overcommit"), Argument(param)]
    ensures Arguments(After(st, ExtraArgs(values)))
         == Arguments(st.tree) + seq(|values|, i requires 0 <= i < |values| => Argument(values[i]))
  {
    hide ApplyOp, ApplyOps, Arguments, Arg;
    TwoOps(st.tree, Arg("-cpu"), Arg(param));
    ArgIsAdded(st.tree, "-cpu");
    ArgIsAdded(ApplyOp(st.tree, Arg("-cpu")), param);
    TwoOps(st.tree, Arg("-overcommit"), Arg(param));
    ArgIsAdded(st.tree, "-overcommit");
    ArgIsAdded(ApplyOp(st.tree, Arg("-overcommit")), param);
    ArgsAreAdded(st.tree, values);
  }

  /** set_disk adds a disk behind the others: a qcow2 file on vdb with the io and cache modes of the first one. */
  lemma DiskByTag(st: State, file: string)
    ensures Kids(After(st, Disk(file)), "devices", "disk") == Kids(st.tree, "devices", "disk")
      + [Element("disk", Nothing, map["type" := "file", "device" := "disk"],
                 [Element("driver", Nothing,
                          map["name" := "qemu", "type" := "qcow2",
                              "io" := if IoMode in st.properties then st.properties[IoMode] else "None",
                              "cache" := if CacheMode in st.properties then st.properties[CacheMode] else "None",
                              "iothread" := "2"], []),
                  Element("source", Nothing, map["file" := file], []),
                  Element("target", Nothing, map["dev" := "vdb", "bus" := "virtio"], [])])]
  {
    hide AddNew, ApplyOps, Kids;
    var op := OpsOf(st.properties, Disk(file))[0];
    OneOp(st.tree, op);
    AddKid(st.tree, "devices", "disk", op.attribs, op.sub, "disk");
  }

  // ---- the properties ----

  /** Each property setter writes its own attribute or text, and raises without the element only for the disk
      and the log. */
  lemma PropertiesByTag(st: State, v: string)
    ensures GoesThrough(st, SetProperty(ImageFile, v)) && Lookup(st.tree, ["devices", "disk", "source"]).Some? ==>
      HasAttrib(Lookup(After(st, SetProperty(ImageFile, v)), ["devices", "disk", "source"]), "file", v)
    ensures GoesThrough(st, SetProperty(IoMode, v)) && Lookup(st.tree, ["devices", "disk", "driver"]).Some? ==>
      HasAttrib(Lookup(After(st, SetProperty(IoMode, v)), ["devices", "disk", "driver"]), "io", v)
    ensures GoesThrough(st, SetProperty(CacheMode, v)) && Lookup(st.tree, ["devices", "disk", "driver"]).Some? ==>
      HasAttrib(Lookup(After(st, SetProperty(CacheMode, v)), ["devices", "disk", "driver"]), "cache", v)
    ensures GoesThrough(st, SetProperty(LogFile, v)) && Lookup(st.tree, ["devices", "console", "log"]).Some? ==>
      HasAttrib(Lookup(After(st, SetProperty(LogFile, v)), ["devices", "console", "log"]), "file", v)
    ensures GoesThrough(st, SetProperty(Sockets, v)) && Lookup(st.tree, ["cpu", "topology"]).Some? ==>
      HasAttrib(Lookup(After(st, SetProperty(Sockets, v)), ["cpu", "topology"]), "sockets", v)
    ensures GoesThrough(st, SetProperty(Cores, v)) && Lookup(st.tree, ["cpu", "topology"]).Some? ==>
      HasAttrib(Lookup(After(st, SetProperty(Cores, v)), ["cpu", "topology"]), "cores", v)
    ensures GoesThrough(st, SetProperty(Threads, v)) && Lookup(st.tree, ["cpu", "topology"]).Some? ==>
      HasAttrib(Lookup(After(st, SetProperty(Threads, v)), ["cpu", "topology"]), "threads", v)
    ensures GoesThrough(st, SetProperty(QemuExec, v)) && Lookup(st.tree, ["devices", "emulator"]).Some? ==>
      GetText(After(st, SetProperty(QemuExec, v)), ["devices", "emulator"]) == Str(v)
  {
    hide Lookup, After, Refusal, Skips;
    forall p: Property | GoesThrough(st, SetProperty(p, v)) && Lookup(st.tree, ElementOf(p)).Some?
      ensures Lookup(After(st, SetProperty(p, v)), ElementOf(p))
           == Some(Edited(Lookup(st.tree, ElementOf(p)).value, EditOf(p, v)))
    {
      PropertyIsThere(st, p, v);
    }
    assert ElementOf(ImageFile) == ["devices", "disk", "source"] && ElementOf(IoMode) == ["devices", "disk", "driver"];
    assert ElementOf(CacheMode) == ["devices", "disk", "driver"] && ElementOf(LogFile) == ["devices", "console", "log"];
    assert ElementOf(Sockets) == ElementOf(Cores) == ElementOf(Threads) == ["cpu", "topology"];
    assert ElementOf(QemuExec) == ["devices", "emulator"];
  }

  lemma PropertyIsThere(st: State, p: Property, v: string)
    requires GoesThrough(st, SetProperty(p, v)) && Lookup(st.tree, ElementOf(p)).Some?
    ensures Lookup(After(st, SetProperty(p, v)), ElementOf(p))
         == Some(Edited(Lookup(st.tree, ElementOf(p)).value, EditOf(p, v)))
  {
    hide Lookup, ElementOf, EditOf, Step, Refusal, Skips;
    PropertyIsStored(st, p, v);
  }

  /** Without their element the disk and log setters raise, and the others do nothing. */
  lemma MissingByTag(st: State, v: string)
    requires st.properties == map[]
    ensures Lookup(st.tree, ["devices", "disk", "source"]).None? <==> Refusal(st, SetProperty(ImageFile, v)).Some?
    ensures Lookup(st.tree, ["devices", "disk", "driver"]).None? <==> Refusal(st, SetProperty(IoMode, v)).Some?
    ensures Lookup(st.tree, ["devices", "disk", "driver"]).None? <==> Refusal(st, SetProperty(CacheMode, v)).Some?
    ensures Lookup(st.tree, ["devices", "console", "log"]).None? <==> Refusal(st, SetProperty(LogFile, v)).Some?
    ensures Refusal(st, SetProperty(Sockets, v)).None? && Refusal(st, SetProperty(Cores, v)).None?
    ensures Refusal(st, SetProperty(Threads, v)).None? && Refusal(st, SetProperty(QemuExec, v)).None?
  {
    hide Lookup;
  }

  /** load takes the io and cache modes from the driver and the image file from the source of the disk. */
  lemma LoadedByTag(tree: Element)
    ensures LoadError(tree).Some?
       <==> Lookup(tree, ["devices", "disk", "driver"]).None? || Lookup(tree, ["devices", "disk", "source"]).None?
    ensures LoadError(tree).None? ==>
      var driver, source, p := Lookup(tree, ["devices", "disk", "driver"]).value.attribs,
                               Lookup(tree, ["devices", "disk", "source"]).value.attribs, Loaded(tree).properties;
      && (IoMode in p <==> "io" in driver) && ("io" in driver ==> p[IoMode] == driver["io"])
      && (CacheMode in p <==> "cache" in driver) && ("cache" in driver ==> p[CacheMode] == driver["cache"])
      && (ImageFile in p <==> "file" in source) && ("file" in source ==> p[ImageFile] == source["file"])
      && p.Keys <= {IoMode, CacheMode, ImageFile}
  {
    hide Lookup, GetText;
  }
}
