// What a `<Delete>` document means, read recursively off its element tree, and that the event machine agrees.
module DeleteTree {
  import opened Rgw
  import opened Text
  import opened DeleteRequest

  // Well-formed XML content: elements with their children, and text in its various forms. An element without
  // children may be written in the short form.
  datatype Forest =
    | Nil
    | Element(name: string, kids: Forest, short: bool, next: Forest)
    | Leaf(event: Event, next: Forest)

  // Text, references, comments and the like: everything but tags.
  predicate IsLeafEvent(e: Event) {
    !e.Start? && !e.Empty? && !e.End?
  }

  ghost predicate WellFormed(f: Forest) {
    match f
    case Nil => true
    case Element(_, kids, _, next) => WellFormed(kids) && WellFormed(next)
    case Leaf(e, next) => IsLeafEvent(e) && WellFormed(next)
  }

  // The events a reader produces for the document.
  function Events(f: Forest): seq<Event> {
    match f
    case Nil => []
    case Element(name, kids, short, next) =>
      (if short && kids.Nil? then [Empty(name)] else [Start(name)] + Events(kids) + [End]) + Events(next)
    case Leaf(e, next) => [e] + Events(next)
  }

  // ------------------------------------------------------------- the recursive reading

  predicate BadLeaf(e: Event) {
    e.Malformed? || (e.EntityRef? && Entity(e.entity).None?)
  }

  predicate Readable(f: Forest) {
    match f
    case Nil => true
    case Element(_, kids, _, next) => Readable(kids) && Readable(next)
    case Leaf(e, next) => !BadLeaf(e) && Readable(next)
  }

  function LeafText(e: Event): string {
    match e
    case Chars(s) => s
    case CData(s) => s
    case CharRef(s) => s
    case EntityRef(name) => if Entity(name).Some? then Entity(name).value else ""
    case _ => ""
  }

  // An element's own text is what follows its last child, in whatever pieces it is written.
  function OwnText(f: Forest, before: string): string {
    match f
    case Nil => before
    case Element(_, _, _, next) => OwnText(next, "")
    case Leaf(e, next) => OwnText(next, before + LeafText(e))
  }

  datatype ObjectParts = ObjectParts(key: Option<string>, versionId: Option<string>)

  // The children of an `Object`: the last `Key` and the last `VersionId` win.
  function ReadObject(f: Forest, parts: ObjectParts): ObjectParts {
    match f
    case Nil => parts
    case Element(name, kids, _, next) =>
      ReadObject(next,
                 if name == "Key" then parts.(key := Some(OwnText(kids, "")))
                 else if name == "VersionId" then parts.(versionId := Some(OwnText(kids, "")))
                 else parts)
    case Leaf(_, next) => ReadObject(next, parts)
  }

  // The children of `Delete`: each `Object` must have a key; the last `Quiet` wins.
  function ReadDelete(f: Forest, req: Request): Result<Request> {
    match f
    case Nil => Ok(req)
    case Element(name, kids, _, next) =>
      if name == "Object" then
        var parts := ReadObject(kids, ObjectParts(None, None));
        if parts.key.None? then Err(MalformedXml)
        else ReadDelete(next, req.(objects := req.objects + [DeleteObject(parts.key.value, parts.versionId)]))
      else if name == "Quiet" then ReadDelete(next, req.(quiet := IsTrue(OwnText(kids, ""))))
      else ReadDelete(next, req)
    case Leaf(_, next) => ReadDelete(next, req)
  }

  // The document: one root element, named `Delete`.
  function ReadDocument(f: Forest, root: Option<Request>): Result<Option<Request>> {
    match f
    case Nil => Ok(root)
    case Element(name, kids, _, next) =>
      if name != "Delete" || root.Some? then Err(MalformedXml)
      else
        var req :- ReadDelete(kids, Request([], false));
        ReadDocument(next, Some(req))
    case Leaf(_, next) => ReadDocument(next, root)
  }

  function Meaning(doc: Forest): Result<Request> {
    if !Readable(doc) then Err(MalformedXml)
    else
      var root :- ReadDocument(doc, None);
      if root.None? || root.value.objects == [] || |root.value.objects| > MAX_MULTI_DELETE then Err(MalformedXml)
      else Ok(root.value)
  }

  // ------------------------------------------------------------- running the machine over pieces

  lemma {:induction false} StepsConcat(m: Machine, a: seq<Event>, b: seq<Event>)
    ensures Steps(m, a + b) == match Steps(m, a) case Err(e) => Err(e) case Ok(n) => Steps(n, b)
    decreases |a|
  {
    hide Step;
    if a == [] {
      assert a + b == b;
    } else {
      assert (a + b)[1..] == a[1..] + b;
      if Step(m, a[0]).Ok? {
        StepsConcat(Step(m, a[0]).value, a[1..], b);
      }
    }
  }

  // An element: open, its children, close, then the rest.
  lemma ElementSteps(m: Machine, f: Forest)
    requires f.Element?
    ensures
      Steps(m, Events(f))
      == match Open(m, f.name) case Err(e) => Err(e) case Ok(inside) =>
         match Steps(inside, Events(f.kids)) case Err(e) => Err(e) case Ok(after) =>
         match Close(after) case Err(e) => Err(e) case Ok(closed) => Steps(closed, Events(f.next))
  {
    hide Open, Close;
    var first := if f.short && f.kids.Nil? then [Empty(f.name)] else [Start(f.name)] + Events(f.kids) + [End];
    StepsConcat(m, first, Events(f.next));
    if f.short && f.kids.Nil? {
      OneStep(m, Empty(f.name));
    } else {
      StepsConcat(m, [Start(f.name)] + Events(f.kids), [End]);
      StepsConcat(m, [Start(f.name)], Events(f.kids));
      OneStep(m, Start(f.name));
      match Open(m, f.name)
      case Err(_) =>
      case Ok(inside) =>
        match Steps(inside, Events(f.kids))
        case Err(_) =>
        case Ok(after) => OneStep(after, End);
    }
  }

  lemma OneStep(m: Machine, e: Event)
    ensures Steps(m, [e]) == Step(m, e)
  {
    hide Step;
    assert [e][1..] == [];
    if Step(m, e).Ok? {
      assert Steps(Step(m, e).value, []) == Ok(Step(m, e).value);
    }
  }

  lemma LeafSteps(m: Machine, f: Forest)
    requires f.Leaf? && IsLeafEvent(f.event)
    ensures Steps(m, Events(f))
         == if BadLeaf(f.event) then Err(MalformedXml)
            else Steps(m.(content := m.content + LeafText(f.event)), Events(f.next))
  {
    hide Entity;
    assert ([f.event] + Events(f.next))[1..] == Events(f.next);
    assert m.content + "" == m.content;
  }

  // ------------------------------------------------------------- level by level

  // Below these paths no tag means anything.
  ghost predicate Inert(path: seq<string>) {
    |path| >= 2 && path != ["Delete", "Object"]
  }

  lemma InertElement(m: Machine, name: string)
    requires Inert(m.path)
    ensures Open(m, name) == Ok(m.(path := m.path + [name], content := ""))
    ensures Inert(m.path + [name])
    ensures forall s :: Close(m.(path := m.path + [name], content := s)) == Ok(m.(content := ""))
  {
    var path := m.path + [name];
    assert path[..|path| - 1] == m.path;
    assert |m.path| == 2 ==> m.path == [path[0], path[1]];
  }

  lemma {:induction false} InertForest(m: Machine, f: Forest)
    requires WellFormed(f) && Readable(f) && Inert(m.path)
    ensures Steps(m, Events(f)) == Ok(m.(content := OwnText(f, m.content)))
    decreases f
  {
    hide Open, Close, Step, LeafText, Inert, BadLeaf;
    match f
    case Nil =>
    case Element(name, kids, _, next) =>
      ElementSteps(m, f);
      InertElement(m, name);
      InertForest(m.(path := m.path + [name], content := ""), kids);
      InertForest(m.(content := ""), next);
    case Leaf(e, next) =>
      LeafSteps(m, f);
      InertForest(m.(content := m.content + LeafText(e)), next);
  }

  lemma ObjectElement(m: Machine, name: string)
    requires m.path == ["Delete", "Object"]
    ensures Open(m, name) == Ok(m.(path := m.path + [name], content := "")) && Inert(m.path + [name])
    ensures forall s ::
      Close(m.(path := m.path + [name], content := s))
      == Ok(if name == "Key" then m.(content := "", key := Some(s))
            else if name == "VersionId" then m.(content := "", versionId := Some(s))
            else m.(content := ""))
  {
    var path := m.path + [name];
    assert path[..2] == m.path && path[2] == name;
  }

  lemma {:induction false} ObjectForest(m: Machine, f: Forest)
    requires WellFormed(f) && Readable(f) && m.path == ["Delete", "Object"]
    ensures
      var parts := ReadObject(f, ObjectParts(m.key, m.versionId));
      Steps(m, Events(f)) == Ok(m.(content := OwnText(f, m.content), key := parts.key, versionId := parts.versionId))
    decreases f
  {
    hide Open, Close, Step, LeafText, Inert, BadLeaf;
    match f
    case Nil =>
    case Element(name, kids, _, next) =>
      ElementSteps(m, f);
      ObjectElement(m, name);
      InertForest(m.(path := m.path + [name], content := ""), kids);
      var text := OwnText(kids, "");
      ObjectForest(if name == "Key" then m.(content := "", key := Some(text))
                   else if name == "VersionId" then m.(content := "", versionId := Some(text))
                   else m.(content := ""), next);
    case Leaf(e, next) =>
      LeafSteps(m, f);
      ObjectForest(m.(content := m.content + LeafText(e)), next);
  }

  lemma DeleteElement(m: Machine, name: string)
    requires m.path == ["Delete"] && m.key.None? && m.versionId.None?
    ensures Open(m, name) == Ok(m.(path := ["Delete", name], content := ""))
    ensures name != "Object" ==> Inert(["Delete", name])
    ensures forall s, key, version ::
      Close(m.(path := ["Delete", name], content := s, key := key, versionId := version))
      == if name == "Object" then
           if key.None? then Err(MalformedXml)
           else Ok(m.(content := "", req := m.req.(objects := m.req.objects + [DeleteObject(key.value, version)])))
         else if name == "Quiet" then
           Ok(m.(content := "", key := key, versionId := version, req := m.req.(quiet := IsTrue(s))))
         else Ok(m.(content := "", key := key, versionId := version))
  {
    hide IsTrue;
    assert m.path + [name] == ["Delete", name] && ["Delete", name][..1] == m.path;
  }

  lemma {:induction false} DeleteForest(m: Machine, f: Forest)
    requires WellFormed(f) && Readable(f) && m.path == ["Delete"] && m.key.None? && m.versionId.None?
    ensures
      Steps(m, Events(f))
      == match ReadDelete(f, m.req)
         case Err(_) => Err(MalformedXml)
         case Ok(req) => Ok(m.(content := OwnText(f, m.content), req := req))
    decreases f
  {
    hide Open, Close, Step, LeafText, Inert, BadLeaf, IsTrue;
    match f
    case Nil =>
    case Element(name, kids, _, next) =>
      ElementSteps(m, f);
      DeleteElement(m, name);
      var inside := m.(path := ["Delete", name], content := "");
      var text := OwnText(kids, "");
      if name == "Object" {
        ObjectForest(inside, kids);
        var parts := ReadObject(kids, ObjectParts(None, None));
        if parts.key.Some? {
          var o := DeleteObject(parts.key.value, parts.versionId);
          DeleteForest(m.(content := "", req := m.req.(objects := m.req.objects + [o])), next);
        }
      } else {
        InertForest(inside, kids);
        var req := if name == "Quiet" then m.req.(quiet := IsTrue(text)) else m.req;
        DeleteForest(m.(content := "", req := req), next);
      }
    case Leaf(e, next) =>
      LeafSteps(m, f);
      DeleteForest(m.(content := m.content + LeafText(e)), next);
  }

  lemma RootElement(m: Machine, name: string)
    requires m.path == []
    ensures Open(m, name) == if name != "Delete" || m.sawRoot then Err(MalformedXml)
                             else Ok(m.(path := ["Delete"], content := "", sawRoot := true))
    ensures forall s, req :: Close(m.(path := ["Delete"], content := s, req := req, sawRoot := true))
                          == Ok(m.(content := "", req := req, sawRoot := true))
  {
    assert m.path + [name] == [name] && ["Delete"][..0] == m.path;
  }

  // Outside the root the machine only remembers whether it has seen it, and what it read there.
  ghost predicate AtTop(m: Machine, root: Option<Request>) {
    && m.path == [] && m.key.None? && m.versionId.None?
    && m.sawRoot == root.Some? && m.req == (if root.Some? then root.value else Request([], false))
  }

  lemma {:induction false} DocumentForest(m: Machine, f: Forest, root: Option<Request>)
    requires WellFormed(f) && Readable(f) && AtTop(m, root)
    ensures
      match ReadDocument(f, root)
      case Err(_) => Steps(m, Events(f)) == Err(MalformedXml)
      case Ok(end) => Steps(m, Events(f)).Ok? && AtTop(Steps(m, Events(f)).value, end)
    decreases f
  {
    hide Open, Close, Step, LeafText, BadLeaf, ReadDelete;
    match f
    case Nil =>
    case Element(name, kids, _, next) =>
      ElementSteps(m, f);
      RootElement(m, name);
      if name == "Delete" && !m.sawRoot {
        DeleteForest(m.(path := ["Delete"], content := "", sawRoot := true), kids);
        if ReadDelete(kids, m.req).Ok? {
          var req := ReadDelete(kids, m.req).value;
          DocumentForest(m.(content := "", req := req, sawRoot := true), next, Some(req));
        }
      }
    case Leaf(e, next) =>
      LeafSteps(m, f);
      DocumentForest(m.(content := m.content + LeafText(e)), next, root);
  }

  // A reference the reader cannot resolve fails the parse wherever it stands.
  lemma {:induction false} UnreadableFails(m: Machine, f: Forest)
    requires WellFormed(f) && !Readable(f)
    ensures Steps(m, Events(f)).Err?
    decreases f
  {
    hide Open, Close, Step, LeafText, BadLeaf, Events;
    match f
    case Element(name, kids, _, next) =>
      ElementSteps(m, f);
      if Open(m, name).Ok? {
        var inside := Open(m, name).value;
        if !Readable(kids) {
          UnreadableFails(inside, kids);
        } else if Steps(inside, Events(kids)).Ok? && Close(Steps(inside, Events(kids)).value).Ok? {
          UnreadableFails(Close(Steps(inside, Events(kids)).value).value, next);
        }
      }
    case Leaf(e, next) =>
      LeafSteps(m, f);
      if !BadLeaf(e) {
        UnreadableFails(m.(content := m.content + LeafText(e)), next);
      }
  }

  lemma {:induction false} OnlyMalformed(m: Machine, events: seq<Event>)
    ensures Steps(m, events).Err? ==> Steps(m, events).error == MalformedXml
    decreases |events|
  {
    hide IsTrue, Entity;
    if events != [] && Step(m, events[0]).Ok? {
      OnlyMalformed(Step(m, events[0]).value, events[1..]);
    }
  }

  lemma {:induction false} MeaningOnlyMalformed(f: Forest, root: Option<Request>, req: Request)
    ensures ReadDocument(f, root).Err? ==> ReadDocument(f, root).error == MalformedXml
    ensures ReadDelete(f, req).Err? ==> ReadDelete(f, req).error == MalformedXml
    decreases f
  {
    hide IsTrue, ReadObject, OwnText;
    match f
    case Nil =>
    case Leaf(_, next) => MeaningOnlyMalformed(next, root, req);
    case Element(name, kids, _, next) =>
      MeaningOnlyMalformed(kids, root, Request([], false));
      var inner := ReadDelete(kids, Request([], false));
      MeaningOnlyMalformed(next, if inner.Ok? then Some(inner.value) else root, req);
      var parts := ReadObject(kids, ObjectParts(None, None));
      if name == "Object" && parts.key.Some? {
        var o := DeleteObject(parts.key.value, parts.versionId);
        MeaningOnlyMalformed(next, root, req.(objects := req.objects + [o]));
      } else if name == "Quiet" {
        MeaningOnlyMalformed(next, root, req.(quiet := IsTrue(OwnText(kids, ""))));
      }
  }

  // The event machine computes the meaning of every well-formed document, failures included.
  lemma MachineIsMeaning(doc: Forest)
    requires WellFormed(doc)
    ensures ParseEvents(Events(doc)) == Meaning(doc)
  {
    hide Step, Events, ReadDocument;
    OnlyMalformed(INITIAL, Events(doc));
    MeaningOnlyMalformed(doc, None, Request([], false));
    if Readable(doc) {
      DocumentForest(INITIAL, doc, None);
    } else {
      UnreadableFails(INITIAL, doc);
    }
  }

  // ------------------------------------------------------------- rendering a request

  // Text as a writer escapes it: markup characters as references, the rest as it is.
  function EscapeText(s: string): Forest {
    if s == "" then Nil
    else
      var e := if s[0] == '&' then EntityRef("amp")
               else if s[0] == '<' then EntityRef("lt")
               else if s[0] == '>' then EntityRef("gt")
               else if s[0] == '"' then EntityRef("quot")
               else if s[0] == '\'' then EntityRef("apos")
               else Chars([s[0]]);
      Leaf(e, EscapeText(s[1..]))
  }

  function RenderObject(o: DeleteObject): Forest {
    Element("Key", EscapeText(o.key), false,
            if o.versionId.Some? then Element("VersionId", EscapeText(o.versionId.value), false, Nil) else Nil)
  }

  function RenderObjects(objects: seq<DeleteObject>): Forest {
    if objects == [] then Nil else Element("Object", RenderObject(objects[0]), false, RenderObjects(objects[1..]))
  }

  function Render(req: Request): Forest {
    var quiet := EscapeText(if req.quiet then "true" else "false");
    Element("Delete", Element("Quiet", quiet, false, RenderObjects(req.objects)), false, Nil)
  }

  lemma {:induction false} EscapedReads(s: string, before: string)
    ensures OwnText(EscapeText(s), before) == before + s
    ensures WellFormed(EscapeText(s)) && Readable(EscapeText(s))
  {
    if s == "" {
      assert before + s == before;
    } else {
      EscapedReads(s[1..], before + [s[0]]);
      assert before + [s[0]] + s[1..] == before + s;
      assert LeafText(EscapeText(s).event) == [s[0]];
    }
  }

  lemma ElementWithText(name: string, text: string, next: Forest)
    requires WellFormed(next) && Readable(next)
    ensures
      var f := Element(name, EscapeText(text), false, next);
      WellFormed(f) && Readable(f) && OwnText(f.kids, "") == text
  {
    EscapedReads(text, "");
    assert "" + text == text;
  }

  lemma RenderedObjectReads(o: DeleteObject)
    ensures ReadObject(RenderObject(o), ObjectParts(None, None)) == ObjectParts(Some(o.key), o.versionId)
    ensures WellFormed(RenderObject(o)) && Readable(RenderObject(o))
  {
    hide EscapeText, OwnText;
    assert WellFormed(Nil) && Readable(Nil);
    var version := if o.versionId.Some? then Element("VersionId", EscapeText(o.versionId.value), false, Nil) else Nil;
    if o.versionId.Some? {
      ElementWithText("VersionId", o.versionId.value, Nil);
      assert ReadObject(Nil, ObjectParts(Some(o.key), o.versionId)) == ObjectParts(Some(o.key), o.versionId);
    }
    assert ReadObject(version, ObjectParts(Some(o.key), None)) == ObjectParts(Some(o.key), o.versionId);
    ElementWithText("Key", o.key, version);
  }

  lemma {:induction false} RenderedObjectsRead(objects: seq<DeleteObject>, req: Request)
    ensures ReadDelete(RenderObjects(objects), req) == Ok(req.(objects := req.objects + objects))
    ensures WellFormed(RenderObjects(objects)) && Readable(RenderObjects(objects))
    decreases |objects|
  {
    hide RenderObject, IsTrue, ReadObject;
    if objects == [] {
      assert req.objects + objects == req.objects;
    } else {
      var o := objects[0];
      RenderedObjectReads(o);
      assert req.objects + [o] + objects[1..] == req.objects + objects;
      RenderedObjectsRead(objects[1..], req.(objects := req.objects + [o]));
    }
  }

  lemma QuietReads(quiet: bool)
    ensures IsTrue(if quiet then "true" else "false") == quiet
  {
    var text := if quiet then "true" else "false";
    TrimIdentity(text);
    assert Lower(text) == text;
  }

  lemma RenderedMeans(req: Request)
    ensures WellFormed(Render(req)) && Readable(Render(req))
    ensures ReadDocument(Render(req), None) == Ok(Some(req))
  {
    hide EscapeText, IsTrue, RenderObjects, OwnText, ReadObject;
    var text := if req.quiet then "true" else "false";
    var objects := RenderObjects(req.objects);
    QuietReads(req.quiet);
    RenderedObjectsRead(req.objects, Request([], req.quiet));
    ElementWithText("Quiet", text, objects);
    assert [] + req.objects == req.objects;
    assert WellFormed(Nil) && Readable(Nil) && ReadDocument(Nil, Some(req)) == Ok(Some(req));
    assert ReadDelete(Element("Quiet", EscapeText(text), false, objects), Request([], false)) == Ok(req);
  }

  // Rendering a request of 1 to 1000 objects and parsing it returns it, spaces in the keys intact; any other
  // number of objects is refused.
  lemma RenderedRequestParses(req: Request)
    ensures ParseEvents(Events(Render(req)))
         == if 1 <= |req.objects| <= 1000 then Ok(req) else Err(MalformedXml)
  {
    hide Render, WellFormed, Readable, ReadDocument, Events, ParseEvents;
    RenderedMeans(req);
    MachineIsMeaning(Render(req));
  }
}
