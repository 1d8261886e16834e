/** The element tree behind a libvirt domain file and its path operations (VirtXml._find_single_element,
    _get_single_element_value, _set_single_element_value, _add_new_element, _delete_element). */
module XmlTree {
  import opened Sequences
  import opened Outcomes

  /** What the text of an element may hold: None, text, or a number that was assigned unconverted. */
  datatype Content = Nothing | Str(s: string) | Int(n: int) | Float(x: real)

  datatype Element = Element(tag: string, text: Content, attribs: map<string, string>, children: seq<Element>)

  type Path = seq<string>

  /** findall: the children with a tag, in order. */
  function FindAll(es: seq<Element>, tag: string): (r: seq<Element>)
    ensures forall i :: 0 <= i < |r| ==> r[i].tag == tag
  {
    if es == [] then [] else (if es[0].tag == tag then [es[0]] else []) + FindAll(es[1..], tag)
  }

  /** find: the index of the first child with a tag, -1 if there is none. */
  function First(es: seq<Element>, tag: string): (i: int)
    ensures -1 <= i < |es|
    ensures i >= 0 ==> es[i].tag == tag && FindAll(es, tag) != [] && FindAll(es, tag)[0] == es[i]
    ensures i < 0 ==> FindAll(es, tag) == []
  {
    if es == [] then -1
    else if es[0].tag == tag then 0
    else
      var r := First(es[1..], tag);
      assert es[1..] != [] ==> es[1] == es[1..][0];
      if r < 0 then -1 else r + 1
  }

  /** _find_single_element: every step must be unique. */
  function Lookup(e: Element, path: Path): Option<Element>
    decreases |path|
  {
    if path == [] then None
    else
      var items := FindAll(e.children, path[0]);
      if |items| != 1 then None
      else if |path| == 1 then Some(items[0])
      else Lookup(items[0], path[1..])
  }

  /** _get_single_element_value */
  function GetText(e: Element, path: Path): Content {
    match Lookup(e, path)
    case None => Nothing
    case Some(x) => x.text
  }

  /** What an assignment to the found element does. */
  datatype Edit = SetText(text: Content) | SetAttrib(name: string, value: string)

  function Edited(e: Element, edit: Edit): Element {
    match edit
    case SetText(t) => e.(text := t)
    case SetAttrib(n, v) => e.(attribs := e.attribs[n := v])
  }

  /** _set_single_element_value and _set_single_element_attrib: None if the element is not found. */
  function SetSingle(e: Element, path: Path, edit: Edit): Option<Element>
    decreases |path|
  {
    if path == [] || |FindAll(e.children, path[0])| != 1 then None
    else
      var i := First(e.children, path[0]);
      if |path| == 1 then Some(e.(children := e.children[i := Edited(e.children[i], edit)]))
      else
        match SetSingle(e.children[i], path[1..], edit)
        case None => None
        case Some(x) => Some(e.(children := e.children[i := x]))
  }

  /** _add_new_element: missing parents are created; the leaf is new if allowMulti holds or there is
      none yet, and gets the attributes; sub holds children given to it afterwards. */
  function AddNew(e: Element, path: Path, attribs: map<string, string>, sub: seq<Element>, allowMulti: bool): Element
    requires path != []
    decreases |path|
  {
    var i := First(e.children, path[0]);
    if |path| == 1 then
      if allowMulti || i < 0 then e.(children := e.children + [Element(path[0], Nothing, attribs, sub)])
      else
        var leaf := e.children[i];
        e.(children := e.children[i := leaf.(attribs := leaf.attribs + attribs, children := leaf.children + sub)])
    else if i < 0 then
      e.(children := e.children + [AddNew(Element(path[0], Nothing, map[], []), path[1..], attribs, sub, allowMulti)])
    else e.(children := e.children[i := AddNew(e.children[i], path[1..], attribs, sub, allowMulti)])
  }

  /** _delete_element */
  function Delete(e: Element, path: Path): Element
    requires path != []
    decreases |path|
  {
    var i := First(e.children, path[0]);
    if i < 0 then e
    else if |path| == 1 then e.(children := e.children[..i] + e.children[i + 1..])
    else e.(children := e.children[i := Delete(e.children[i], path[1..])])
  }

  // ---- how the children lists change ----

  lemma {:induction false} FindAllConcat(a: seq<Element>, b: seq<Element>, tag: string)
    ensures FindAll(a + b, tag) == FindAll(a, tag) + FindAll(b, tag)
  {
    if a == [] {
      assert a + b == b;
    } else {
      FindAllConcat(a[1..], b, tag);
      assert (a + b)[1..] == a[1..] + b;
      var h := if a[0].tag == tag then [a[0]] else [];
      Assoc(h, FindAll(a[1..], tag), FindAll(b, tag));
    }
  }

  lemma FindAllOne(x: Element, tag: string)
    ensures FindAll([x], tag) == if x.tag == tag then [x] else []
  {
    assert [x][1..] == [];
  }

  /** A list around position i. */
  lemma FindAllAround(es: seq<Element>, i: nat, x: Element, tag: string)
    requires i < |es|
    ensures FindAll(es, tag) == FindAll(es[..i], tag) + FindAll([es[i]], tag) + FindAll(es[i + 1..], tag)
    ensures FindAll(es[i := x], tag) == FindAll(es[..i], tag) + FindAll([x], tag) + FindAll(es[i + 1..], tag)
    ensures FindAll(es[..i] + es[i + 1..], tag) == FindAll(es[..i], tag) + FindAll(es[i + 1..], tag)
  {
    var a, c := es[..i], es[i + 1..];
    assert es == a + [es[i]] + c && es[i := x] == a + [x] + c;
    FindAllConcat(a + [es[i]], c, tag);
    FindAllConcat(a, [es[i]], tag);
    FindAllConcat(a + [x], c, tag);
    FindAllConcat(a, [x], tag);
    FindAllConcat(a, c, tag);
  }

  /** Replacing a child by one of the same tag is not seen under other tags, and replaces the only
      one under its own. */
  lemma ReplaceChild(es: seq<Element>, i: nat, x: Element, tag: string)
    requires i < |es| && x.tag == es[i].tag
    ensures tag != x.tag ==> FindAll(es[i := x], tag) == FindAll(es, tag)
    ensures tag == x.tag && |FindAll(es, tag)| == 1 ==> FindAll(es[i := x], tag) == [x]
    ensures |FindAll(es[i := x], tag)| == |FindAll(es, tag)|
  {
    hide FindAll;
    FindAllAround(es, i, x, tag);
    FindAllOne(es[i], tag);
    FindAllOne(x, tag);
  }

  lemma AppendChild(es: seq<Element>, x: Element, tag: string)
    ensures tag != x.tag ==> FindAll(es + [x], tag) == FindAll(es, tag)
    ensures tag == x.tag ==> FindAll(es + [x], tag) == FindAll(es, tag) + [x]
  {
    FindAllConcat(es, [x], tag);
    FindAllOne(x, tag);
  }

  lemma RemoveChild(es: seq<Element>, i: nat, tag: string)
    requires i < |es|
    ensures tag != es[i].tag ==> FindAll(es[..i] + es[i + 1..], tag) == FindAll(es, tag)
    ensures tag == es[i].tag ==> |FindAll(es[..i] + es[i + 1..], tag)| == |FindAll(es, tag)| - 1
  {
    hide FindAll;
    FindAllAround(es, i, es[i], tag);
    FindAllOne(es[i], tag);
    var a := FindAll(es[..i], tag);
    assert a + [] == a;
  }

  // ---- lookups after edits ----

  /** A lookup sees only the children with the first tag of its path. */
  lemma LookupFrame(e: Element, f: Element, path: Path)
    requires path != [] && FindAll(e.children, path[0]) == FindAll(f.children, path[0])
    ensures Lookup(e, path) == Lookup(f, path)
  {
  }

  lemma SetSingleTag(e: Element, path: Path, edit: Edit)
    requires SetSingle(e, path, edit).Some?
    ensures SetSingle(e, path, edit).value.tag == e.tag
  {
  }

  lemma AddNewTag(e: Element, path: Path, attribs: map<string, string>, sub: seq<Element>, allowMulti: bool)
    requires path != []
    ensures AddNew(e, path, attribs, sub, allowMulti).tag == e.tag
  {
  }

  lemma DeleteTag(e: Element, path: Path)
    requires path != []
    ensures Delete(e, path).tag == e.tag
  {
  }

  /** Setting succeeds exactly when the element is found, and the lookup then gives the edited element. */
  lemma {:induction false} SetThenLookup(e: Element, path: Path, edit: Edit)
    ensures SetSingle(e, path, edit).Some? <==> Lookup(e, path).Some?
    ensures Lookup(e, path).Some? ==>
      Lookup(SetSingle(e, path, edit).value, path) == Some(Edited(Lookup(e, path).value, edit))
    decreases |path|
  {
    hide FindAll;
    if path != [] && |FindAll(e.children, path[0])| == 1 {
      var i := First(e.children, path[0]);
      var child := e.children[i];
      if |path| == 1 {
        ReplaceChild(e.children, i, Edited(child, edit), path[0]);
      } else {
        SetThenLookup(child, path[1..], edit);
        if SetSingle(child, path[1..], edit).Some? {
          SetSingleTag(child, path[1..], edit);
          ReplaceChild(e.children, i, SetSingle(child, path[1..], edit).value, path[0]);
        }
      }
    }
  }

  /** Two paths that part somewhere along the way. */
  predicate Apart(p: Path, q: Path)
    decreases |p|
  {
    p != [] && q != [] && (p[0] != q[0] || Apart(p[1..], q[1..]))
  }

  /** Editing along one path does not change a lookup along a path apart from it. */
  lemma {:induction false} SetKeepsApart(e: Element, path: Path, edit: Edit, q: Path)
    requires Apart(path, q) && SetSingle(e, path, edit).Some?
    ensures Lookup(SetSingle(e, path, edit).value, q) == Lookup(e, q)
    decreases |path|
  {
    hide FindAll;
    var i := First(e.children, path[0]);
    var child := e.children[i];
    if |path| > 1 {
      var x := SetSingle(child, path[1..], edit).value;
      SetSingleTag(child, path[1..], edit);
      ReplaceChild(e.children, i, x, q[0]);
      if path[0] == q[0] { SetKeepsApart(child, path[1..], edit, q[1..]); }
    } else {
      ReplaceChild(e.children, i, Edited(child, edit), q[0]);
    }
  }

  /** Deleting along one path does not change a lookup along a path apart from it. */
  lemma {:induction false} DeleteKeepsApart(e: Element, path: Path, q: Path)
    requires path != [] && Apart(path, q)
    ensures Lookup(Delete(e, path), q) == Lookup(e, q)
    decreases |path|
  {
    hide FindAll;
    var i := First(e.children, path[0]);
    if i >= 0 {
      if |path| > 1 {
        var child := e.children[i];
        DeleteTag(child, path[1..]);
        ReplaceChild(e.children, i, Delete(child, path[1..]), q[0]);
        if path[0] == q[0] { DeleteKeepsApart(child, path[1..], q[1..]); }
      } else {
        RemoveChild(e.children, i, q[0]);
      }
    }
  }

  /** Deleting an element that the lookup finds leaves nothing to find. */
  lemma {:induction false} DeleteThenLookup(e: Element, path: Path)
    requires Lookup(e, path).Some?
    ensures Lookup(Delete(e, path), path) == None
    decreases |path|
  {
    hide FindAll;
    var i := First(e.children, path[0]);
    if |path| > 1 {
      var child := e.children[i];
      DeleteThenLookup(child, path[1..]);
      DeleteTag(child, path[1..]);
      ReplaceChild(e.children, i, Delete(child, path[1..]), path[0]);
    } else {
      RemoveChild(e.children, i, path[0]);
    }
  }

  /** Adding along one path does not change a lookup along a path apart from it. */
  lemma {:induction false} AddKeepsApart(
    e: Element, path: Path, attribs: map<string, string>, sub: seq<Element>, allowMulti: bool, q: Path)
    requires path != [] && Apart(path, q)
    ensures Lookup(AddNew(e, path, attribs, sub, allowMulti), q) == Lookup(e, q)
    decreases |path|
  {
    hide FindAll;
    var i := First(e.children, path[0]);
    var f := AddNew(e, path, attribs, sub, allowMulti);
    if |f.children| == |e.children| {
      if |path| > 1 {
        AddNewTag(e.children[i], path[1..], attribs, sub, allowMulti);
        if path[0] == q[0] { AddKeepsApart(e.children[i], path[1..], attribs, sub, allowMulti, q[1..]); }
      }
      ReplaceChild(e.children, i, f.children[i], q[0]);
    } else {
      if |path| > 1 {
        var blank := Element(path[0], Nothing, map[], []);
        AddNewTag(blank, path[1..], attribs, sub, allowMulti);
        if path[0] == q[0] {
          AddKeepsApart(blank, path[1..], attribs, sub, allowMulti, q[1..]);
          NothingInside(blank, q[1..]);
        }
      }
      AppendChild(e.children, f.children[|e.children|], q[0]);
    }
    if path[0] != q[0] { LookupFrame(f, e, q); }
  }

  lemma NothingInside(e: Element, path: Path)
    requires e.children == [] && path != []
    ensures Lookup(e, path) == None
  {
  }

  /** Setting an attribute changes that attribute of the element found and nothing else about it. */
  lemma AttribIsSet(e: Element, path: Path, name: string, value: string)
    requires Lookup(e, path).Some?
    ensures SetSingle(e, path, SetAttrib(name, value)).Some?
    ensures var x, y := Lookup(e, path).value, Lookup(SetSingle(e, path, SetAttrib(name, value)).value, path);
      && y.Some? && y.value.tag == x.tag && y.value.text == x.text && y.value.children == x.children
      && name in y.value.attribs && y.value.attribs[name] == value
      && forall k :: k != name ==> (k in y.value.attribs <==> k in x.attribs)
                                   && (k in x.attribs ==> y.value.attribs[k] == x.attribs[k])
  {
    hide Lookup, SetSingle;
    SetThenLookup(e, path, SetAttrib(name, value));
  }

  /** Setting the text changes the text of the element found and nothing else about it. */
  lemma TextIsSet(e: Element, path: Path, text: Content)
    requires Lookup(e, path).Some?
    ensures SetSingle(e, path, SetText(text)).Some?
    ensures var x, y := Lookup(e, path).value, Lookup(SetSingle(e, path, SetText(text)).value, path);
      && y.Some? && y.value.text == text
      && y.value.tag == x.tag && y.value.attribs == x.attribs && y.value.children == x.children
  {
    hide Lookup, SetSingle;
    SetThenLookup(e, path, SetText(text));
  }

  /** Setting an attribute of an element is not seen by lookups inside it. */
  lemma {:induction false} AttribKeepsInside(e: Element, path: Path, name: string, value: string, q: Path)
    requires SetSingle(e, path, SetAttrib(name, value)).Some? && q != []
    ensures Lookup(SetSingle(e, path, SetAttrib(name, value)).value, path + q) == Lookup(e, path + q)
    decreases |path|
  {
    hide FindAll;
    var i := First(e.children, path[0]);
    var child := e.children[i];
    var all := path + q;
    assert all[0] == path[0] && all[1..] == path[1..] + q;
    if |path| > 1 {
      AttribKeepsInside(child, path[1..], name, value, q);
      SetSingleTag(child, path[1..], SetAttrib(name, value));
      ReplaceChild(e.children, i, SetSingle(child, path[1..], SetAttrib(name, value)).value, path[0]);
    } else {
      assert path[1..] + q == q;
      ReplaceChild(e.children, i, Edited(child, SetAttrib(name, value)), path[0]);
      LookupFrame(child, Edited(child, SetAttrib(name, value)), q);
    }
  }

  /** Deleting a child removes the first one with the tag and keeps the others in order. */
  lemma DeleteFirst(e: Element, tag: string)
    ensures var before, after := FindAll(e.children, tag), FindAll(Delete(e, [tag]).children, tag);
      after == if before == [] then [] else before[1..]
  {
    hide FindAll;
    var i := First(e.children, tag);
    if i >= 0 {
      var x := e.children[i];
      FindAllAround(e.children, i, x, tag);
      FindAllOne(x, tag);
      NoneBefore(e.children, tag);
      DropFirst(x, FindAll(e.children[i + 1..], tag));
    }
  }

  lemma DropFirst(x: Element, rest: seq<Element>)
    ensures [] + [x] + rest != [] && ([] + [x] + rest)[1..] == [] + rest
  {
    assert [] + [x] + rest == [x] + rest;
  }

  lemma {:induction false} NoneBefore(es: seq<Element>, tag: string)
    ensures First(es, tag) >= 0 ==> FindAll(es[..First(es, tag)], tag) == []
  {
    if es != [] && es[0].tag != tag && First(es, tag) >= 0 {
      NoneBefore(es[1..], tag);
      var i := First(es, tag);
      assert es[..i][1..] == es[1..][..i - 1];
    }
  }

  /** Along the path, as far as it exists, no step is ambiguous. */
  predicate AtMostOne(e: Element, path: Path)
    decreases |path|
  {
    path != [] && |FindAll(e.children, path[0])| <= 1
    && var i := First(e.children, path[0]); (|path| > 1 && i >= 0 ==> AtMostOne(e.children[i], path[1..]))
  }

  lemma {:induction false} EmptyIsUnambiguous(e: Element, path: Path)
    requires path != [] && e.children == []
    ensures AtMostOne(e, path)
  {
  }

  /** The leaf after an addition: what was there with the attributes and children added, or a new element. */
  function Added(before: Option<Element>, tag: string, attribs: map<string, string>, sub: seq<Element>): Element {
    match before
    case Some(x) => x.(attribs := x.attribs + attribs, children := x.children + sub)
    case None => Element(tag, Nothing, attribs, sub)
  }

  /** An element added without duplicates is found by the lookup if and only if no step of its path is
      ambiguous; it is then what was there with the attributes and children added, or a new element. */
  lemma {:induction false} AddThenLookup(e: Element, path: Path, attribs: map<string, string>, sub: seq<Element>)
    requires path != []
    ensures var found := Lookup(AddNew(e, path, attribs, sub, false), path);
      && (found.Some? <==> AtMostOne(e, path))
      && (found.Some? ==> found.value == Added(Lookup(e, path), path[|path| - 1], attribs, sub))
    decreases |path|
  {
    hide FindAll;
    var i := First(e.children, path[0]);
    var f := AddNew(e, path, attribs, sub, false);
    if i < 0 {
      var x := f.children[|e.children|];
      if |path| > 1 {
        var blank := Element(path[0], Nothing, map[], []);
        AddNewTag(blank, path[1..], attribs, sub, false);
        EmptyIsUnambiguous(blank, path[1..]);
        NothingInside(blank, path[1..]);
        AddThenLookup(blank, path[1..], attribs, sub);
      }
      AppendChild(e.children, x, path[0]);
    } else {
      var x := f.children[i];
      if |path| > 1 {
        AddNewTag(e.children[i], path[1..], attribs, sub, false);
        AddThenLookup(e.children[i], path[1..], attribs, sub);
      }
      ReplaceChild(e.children, i, x, path[0]);
    }
  }

  lemma UnambiguousFrame(e: Element, f: Element, path: Path)
    requires path != [] && FindAll(e.children, path[0]) == FindAll(f.children, path[0]) && AtMostOne(e, path)
    ensures AtMostOne(f, path)
  {
    hide FindAll;
  }

  /** Adding along one path keeps a path apart from it unambiguous. */
  lemma {:induction false} AddKeepsUnambiguous(
    e: Element, path: Path, attribs: map<string, string>, sub: seq<Element>, allowMulti: bool, q: Path)
    requires path != [] && Apart(path, q) && AtMostOne(e, q)
    ensures AtMostOne(AddNew(e, path, attribs, sub, allowMulti), q)
    decreases |path|
  {
    hide FindAll;
    var i := First(e.children, path[0]);
    var f := AddNew(e, path, attribs, sub, allowMulti);
    if |f.children| == |e.children| {
      if |path| > 1 {
        AddNewTag(e.children[i], path[1..], attribs, sub, allowMulti);
        if path[0] == q[0] { AddKeepsUnambiguous(e.children[i], path[1..], attribs, sub, allowMulti, q[1..]); }
      }
      ReplaceChild(e.children, i, f.children[i], q[0]);
    } else {
      if |path| > 1 {
        var blank := Element(path[0], Nothing, map[], []);
        AddNewTag(blank, path[1..], attribs, sub, allowMulti);
        if path[0] == q[0] {
          EmptyIsUnambiguous(blank, q[1..]);
          AddKeepsUnambiguous(blank, path[1..], attribs, sub, allowMulti, q[1..]);
        }
      }
      AppendChild(e.children, f.children[|e.children|], q[0]);
    }
    if path[0] != q[0] { UnambiguousFrame(e, f, q); }
  }

  /** Editing an element keeps every path unambiguous. */
  lemma {:induction false} SetKeepsUnambiguous(e: Element, path: Path, edit: Edit, q: Path)
    requires SetSingle(e, path, edit).Some? && AtMostOne(e, q)
    ensures AtMostOne(SetSingle(e, path, edit).value, q)
    decreases |path|
  {
    hide FindAll;
    var i := First(e.children, path[0]);
    var child := e.children[i];
    var f := SetSingle(e, path, edit).value;
    SetSingleTag(e, path, edit);
    if |path| > 1 { SetSingleTag(child, path[1..], edit); }
    ReplaceChild(e.children, i, f.children[i], q[0]);
    if path[0] != q[0] {
      UnambiguousFrame(e, f, q);
    } else if |q| > 1 {
      if |path| > 1 {
        SetKeepsUnambiguous(child, path[1..], edit, q[1..]);
      } else {
        UnambiguousFrame(child, f.children[i], q[1..]);
      }
    }
  }
}
