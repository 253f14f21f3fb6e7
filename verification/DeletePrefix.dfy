// What the event machine makes of a document whose events stop early. It never asks whether its path is empty.
module DeletePrefix {
  import opened Rgw
  import opened DeleteRequest
  import opened DeleteTree

  // ------------------------------------------------------------- the document cut after some events

  function OwnEvents(f: Forest): seq<Event>
    requires f.Element?
  {
    if f.short && f.kids.Nil? then [Empty(f.name)] else [Start(f.name)] + Events(f.kids) + [End]
  }

  function Alone(f: Forest): Forest
    requires f.Element?
  {
    Element(f.name, f.kids, f.short, Nil)
  }

  // Children that end within the first `k` events; one that does not is left out.
  function CutKids(f: Forest, k: nat): Forest
    decreases f
  {
    match f
    case Nil => Nil
    case Leaf(e, next) => if k == 0 then Nil else Leaf(e, CutKids(next, k - 1))
    case Element(name, kids, short, next) =>
      if k < |OwnEvents(f)| then Nil else Element(name, kids, short, CutKids(next, k - |OwnEvents(f)|))
  }

  // The document up to there: an element of the top level that is still open ends after its last complete child.
  function Cut(f: Forest, k: nat): Forest
    decreases f
  {
    match f
    case Nil => Nil
    case Leaf(e, next) => if k == 0 then Nil else Leaf(e, Cut(next, k - 1))
    case Element(name, kids, short, next) =>
      if k == 0 then Nil
      else if k < |OwnEvents(f)| then Element(name, CutKids(kids, k - 1), false, Nil)
      else Element(name, kids, short, Cut(next, k - |OwnEvents(f)|))
  }

  ghost predicate NoBadLeaf(events: seq<Event>) {
    forall i :: 0 <= i < |events| ==> !BadLeaf(events[i])
  }

  lemma NoBadParts(a: seq<Event>, b: seq<Event>)
    ensures NoBadLeaf(a + b) <==> NoBadLeaf(a) && NoBadLeaf(b)
  {
    hide BadLeaf;
    if NoBadLeaf(a + b) {
      assert forall i :: 0 <= i < |a| ==> a[i] == (a + b)[i];
      assert forall i :: 0 <= i < |b| ==> b[i] == (a + b)[|a| + i];
    }
  }

  lemma TagsAreGood(name: string)
    ensures NoBadLeaf([Start(name)]) && NoBadLeaf([Empty(name)]) && NoBadLeaf([End])
  {
  }

  // A document is readable exactly when none of its events is a bad reference or a read error.
  lemma {:induction false} ReadableIs(f: Forest)
    ensures Readable(f) <==> NoBadLeaf(Events(f))
  {
    hide BadLeaf;
    match f
    case Nil =>
    case Leaf(e, next) =>
      ReadableIs(next);
      assert [e][0] == e;
      NoBadParts([e], Events(next));
    case Element(name, kids, short, next) =>
      TagsAreGood(name);
      ReadableIs(kids);
      ReadableIs(next);
      NoBadParts(OwnEvents(f), Events(next));
      NoBadParts([Start(name)], Events(kids));
      NoBadParts([Start(name)] + Events(kids), [End]);
  }

  // The events of an element, cut inside it or after it.
  lemma ElementPrefix(f: Forest, k: nat)
    requires f.Element? && k <= |Events(f)|
    ensures Events(f) == OwnEvents(f) + Events(f.next)
    ensures 0 < k < |OwnEvents(f)| ==>
      k - 1 <= |Events(f.kids)| && Events(f)[..k] == [Start(f.name)] + Events(f.kids)[..k - 1]
    ensures |OwnEvents(f)| <= k ==> Events(f)[..k] == OwnEvents(f) + Events(f.next)[..k - |OwnEvents(f)|]
  {
    if 0 < k < |OwnEvents(f)| {
      assert OwnEvents(f)[..k] == [Start(f.name)] + Events(f.kids)[..k - 1];
    }
  }

  lemma {:induction false} BadLeafFails(m: Machine, events: seq<Event>)
    requires !NoBadLeaf(events)
    ensures Steps(m, events).Err?
    decreases |events|
  {
    hide Open, Close;
    if !BadLeaf(events[0]) && Step(m, events[0]).Ok? {
      NoBadParts([events[0]], events[1..]);
      assert events == [events[0]] + events[1..];
      BadLeafFails(Step(m, events[0]).value, events[1..]);
    }
  }

  // ------------------------------------------------------------- inside an open element

  // Nothing has been decided by an element that is still open: the request is as it was.
  ghost predicate Undecided(m: Machine, n: Machine) {
    n.req == m.req && n.sawRoot == m.sawRoot
  }

  lemma DeepClose(m: Machine)
    requires |m.path| >= 3
    ensures Close(m).Ok? && Undecided(m, Close(m).value) && Close(m).value.path == m.path[..|m.path| - 1]
  {
  }

  lemma DeepOpen(m: Machine, name: string)
    requires |m.path| >= 2
    ensures Open(m, name).Ok? && Undecided(m, Open(m, name).value) && Open(m, name).value.path == m.path + [name]
  {
  }

  lemma {:induction false} InnerPrefix(m: Machine, f: Forest, k: nat)
    requires WellFormed(f) && k <= |Events(f)| && NoBadLeaf(Events(f)[..k]) && |m.path| >= 2
    ensures Steps(m, Events(f)[..k]).Ok? && Undecided(m, Steps(m, Events(f)[..k]).value)
    ensures k == |Events(f)| ==> Steps(m, Events(f)[..k]).value.path == m.path
    decreases f
  {
    hide Open, Close, Step, BadLeaf, NoBadLeaf, LeafText;
    if k > 0 {
      match f
      case Nil =>
      case Leaf(e, next) => InnerLeaf(m, f, k);
      case Element(name, kids, short, next) =>
        ElementPrefix(f, k);
        DeepOpen(m, name);
        var inside := Open(m, name).value;
        if k < |OwnEvents(f)| {
          NoBadParts([Start(name)], Events(kids)[..k - 1]);
          StartSteps(m, name, Events(kids)[..k - 1]);
          InnerPrefix(inside, kids, k - 1);
        } else {
          NoBadParts(OwnEvents(f), Events(next)[..k - |OwnEvents(f)|]);
          KidsAreGood(f);
          assert Events(kids)[..|Events(kids)|] == Events(kids);
          InnerPrefix(inside, kids, |Events(kids)|);
          var after := Steps(inside, Events(kids)).value;
          DeepClose(after);
          ElementThen(m, f, Events(next)[..k - |OwnEvents(f)|]);
          InnerPrefix(Close(after).value, next, k - |OwnEvents(f)|);
        }
    } else {
      assert Events(f)[..0] == [];
    }
  }

  lemma {:induction false} InnerLeaf(m: Machine, f: Forest, k: nat)
    requires WellFormed(f) && f.Leaf? && 0 < k <= |Events(f)| && NoBadLeaf(Events(f)[..k]) && |m.path| >= 2
    ensures Steps(m, Events(f)[..k]).Ok? && Undecided(m, Steps(m, Events(f)[..k]).value)
    ensures k == |Events(f)| ==> Steps(m, Events(f)[..k]).value.path == m.path
    decreases f, 0
  {
    hide Open, Close, Step, BadLeaf, NoBadLeaf, LeafText;
    LeafThen(m, f, k);
    InnerPrefix(m.(content := m.content + LeafText(f.event)), f.next, k - 1);
  }

  lemma StartSteps(m: Machine, name: string, rest: seq<Event>)
    ensures Steps(m, [Start(name)] + rest) ==
      if Open(m, name).Err? then Open(m, name) else Steps(Open(m, name).value, rest)
  {
    hide Open, Close;
    assert ([Start(name)] + rest)[1..] == rest;
  }

  lemma KidsAreGood(f: Forest)
    requires f.Element? && NoBadLeaf(OwnEvents(f))
    ensures NoBadLeaf(Events(f.kids)) && Readable(f.kids)
  {
    hide BadLeaf;
    NoBadParts([Start(f.name)], Events(f.kids));
    NoBadParts([Start(f.name)] + Events(f.kids), [End]);
    ReadableIs(f.kids);
  }

  // An element with its children read, up to its end.
  function Around(m: Machine, f: Forest): Result<Machine>
    requires f.Element?
  {
    var inside :- Open(m, f.name);
    var after :- Steps(inside, Events(f.kids));
    Close(after)
  }

  // An element on its own, then whatever events follow.
  lemma ElementThen(m: Machine, f: Forest, rest: seq<Event>)
    requires f.Element?
    ensures Steps(m, OwnEvents(f) + rest) == if Around(m, f).Err? then Around(m, f) else Steps(Around(m, f).value, rest)
  {
    hide Open, Close, Step;
    var alone := Alone(f);
    assert Events(alone) == OwnEvents(f) + [] == OwnEvents(f);
    ElementSteps(m, alone);
    StepsConcat(m, OwnEvents(f), rest);
  }

  lemma LeafThen(m: Machine, f: Forest, k: nat)
    requires WellFormed(f) && f.Leaf? && 0 < k <= |Events(f)| && NoBadLeaf(Events(f)[..k])
    ensures k - 1 <= |Events(f.next)| && NoBadLeaf(Events(f.next)[..k - 1]) && !BadLeaf(f.event)
    ensures Steps(m, Events(f)[..k]) == Steps(m.(content := m.content + LeafText(f.event)), Events(f.next)[..k - 1])
  {
    hide Open, Close, Entity;
    assert Events(f)[..k] == [f.event] + Events(f.next)[..k - 1];
    NoBadParts([f.event], Events(f.next)[..k - 1]);
    assert [f.event][0] == f.event;
    assert ([f.event] + Events(f.next)[..k - 1])[1..] == Events(f.next)[..k - 1];
    assert m.content + "" == m.content;
  }

  // ------------------------------------------------------------- inside the root

  lemma ReadCutKids(f: Forest, k: nat, req: Request)
    ensures f.Nil? || k == 0 || (f.Element? && k < |OwnEvents(f)|) ==> ReadDelete(CutKids(f, k), req) == Ok(req)
    ensures f.Leaf? && k > 0 ==> ReadDelete(CutKids(f, k), req) == ReadDelete(CutKids(f.next, k - 1), req)
    ensures f.Element? && |OwnEvents(f)| <= k ==>
      ReadDelete(CutKids(f, k), req)
      == var read := ReadDelete(Alone(f), req);
         if read.Err? then read else ReadDelete(CutKids(f.next, k - |OwnEvents(f)|), read.value)
  {
    hide Events, IsTrue, ReadObject, OwnText;
  }

  lemma {:induction false} DeletePrefixReads(m: Machine, f: Forest, k: nat)
    requires WellFormed(f) && k <= |Events(f)| && NoBadLeaf(Events(f)[..k])
    requires m.path == ["Delete"] && m.key.None? && m.versionId.None?
    ensures
      var r, read := Steps(m, Events(f)[..k]), ReadDelete(CutKids(f, k), m.req);
      && (r.Ok? <==> read.Ok?)
      && (r.Ok? ==> r.value.req == read.value && r.value.sawRoot == m.sawRoot)
    decreases f
  {
    hide Open, Close, Step, BadLeaf, NoBadLeaf, LeafText, ReadDelete, CutKids, Readable;
    ReadCutKids(f, k, m.req);
    match f
    case Nil => assert Events(f)[..k] == [];
    case Leaf(e, next) =>
      if k == 0 {
        assert Events(f)[..0] == [];
      } else {
        LeafThen(m, f, k);
        DeletePrefixReads(m.(content := m.content + LeafText(e)), next, k - 1);
      }
    case Element(name, kids, short, next) =>
      ElementPrefix(f, k);
      if k == 0 {
        assert Events(f)[..0] == [];
      } else if k < |OwnEvents(f)| {
        OpenChild(m, f, k);
      } else {
        var rest := Events(next)[..k - |OwnEvents(f)|];
        NoBadParts(OwnEvents(f), rest);
        KidsAreGood(f);
        OneChild(m, f, rest);
        var read := ReadDelete(Alone(f), m.req);
        if read.Ok? {
          DeletePrefixReads(m.(content := "", req := read.value), next, k - |OwnEvents(f)|);
        }
      }
  }

  // A child of the root that is still open.
  lemma OpenChild(m: Machine, f: Forest, k: nat)
    requires WellFormed(f) && f.Element? && 0 < k < |OwnEvents(f)| && k <= |Events(f)| && NoBadLeaf(Events(f)[..k])
    requires m.path == ["Delete"] && m.key.None? && m.versionId.None?
    ensures Steps(m, Events(f)[..k]).Ok? && Undecided(m, Steps(m, Events(f)[..k]).value)
  {
    hide Open, Close, Step, NoBadLeaf;
    ElementPrefix(f, k);
    DeleteElement(m, f.name);
    NoBadParts([Start(f.name)], Events(f.kids)[..k - 1]);
    StartSteps(m, f.name, Events(f.kids)[..k - 1]);
    InnerPrefix(Open(m, f.name).value, f.kids, k - 1);
  }

  // A complete child of the root, then whatever events follow.
  lemma OneChild(m: Machine, f: Forest, rest: seq<Event>)
    requires WellFormed(f) && f.Element? && Readable(f.kids) && m.path == ["Delete"] && m.key.None? && m.versionId.None?
    ensures
      var r, read := Steps(m, OwnEvents(f) + rest), ReadDelete(Alone(f), m.req);
      && (read.Err? ==> r.Err?)
      && (read.Ok? ==> r == Steps(m.(content := "", req := read.value), rest))
  {
    hide Open, Close, Step, Readable, LeafText, IsTrue, ReadObject;
    var alone := Alone(f);
    AloneIsFine(f);
    assert Events(alone) == OwnEvents(f) + [] == OwnEvents(f);
    DeleteForest(m, alone);
    StepsConcat(m, OwnEvents(f), rest);
  }

  lemma AloneIsFine(f: Forest)
    requires WellFormed(f) && f.Element? && Readable(f.kids)
    ensures WellFormed(Alone(f)) && Readable(Alone(f))
    ensures OwnText(Alone(f), "") == ""
  {
  }

  // ------------------------------------------------------------- the whole document

  // Whatever the path, the machine has seen this root and read this request.
  ghost predicate HasRead(m: Machine, root: Option<Request>) {
    m.sawRoot == root.Some? && m.req == (if root.Some? then root.value else Request([], false))
  }

  lemma ReadCut(f: Forest, k: nat, root: Option<Request>)
    ensures f.Nil? || k == 0 ==> ReadDocument(Cut(f, k), root) == Ok(root)
    ensures f.Leaf? && k > 0 ==> ReadDocument(Cut(f, k), root) == ReadDocument(Cut(f.next, k - 1), root)
    ensures f.Element? && 0 < k < |OwnEvents(f)| ==>
      ReadDocument(Cut(f, k), root)
      == if f.name != "Delete" || root.Some? then Err(MalformedXml)
         else
           var req :- ReadDelete(CutKids(f.kids, k - 1), Request([], false));
           Ok(Some(req))
    ensures f.Element? && |OwnEvents(f)| <= k ==>
      ReadDocument(Cut(f, k), root)
      == var read := ReadDocument(Alone(f), root);
         if read.Err? then read else ReadDocument(Cut(f.next, k - |OwnEvents(f)|), read.value)
  {
    hide Events, ReadDelete, CutKids;
    OwnSome(f);
  }

  lemma OwnSome(f: Forest)
    ensures f.Element? ==> |OwnEvents(f)| > 0
  {
  }

  lemma {:induction false} DocumentPrefixReads(m: Machine, f: Forest, k: nat, root: Option<Request>)
    requires WellFormed(f) && k <= |Events(f)| && NoBadLeaf(Events(f)[..k]) && AtTop(m, root)
    ensures
      var r, read := Steps(m, Events(f)[..k]), ReadDocument(Cut(f, k), root);
      (r.Ok? <==> read.Ok?) && (r.Ok? ==> HasRead(r.value, read.value))
    decreases f
  {
    hide Open, Close, Step, BadLeaf, NoBadLeaf, LeafText, ReadDelete, ReadDocument, Cut, CutKids, Readable;
    ReadCut(f, k, root);
    match f
    case Nil => assert Events(f)[..k] == [];
    case Leaf(e, next) =>
      if k == 0 {
        assert Events(f)[..0] == [];
      } else {
        LeafThen(m, f, k);
        DocumentPrefixReads(m.(content := m.content + LeafText(e)), next, k - 1, root);
      }
    case Element(name, kids, short, next) =>
      ElementPrefix(f, k);
      if k == 0 {
        assert Events(f)[..0] == [];
      } else if k < |OwnEvents(f)| {
        RootElement(m, name);
        NoBadParts([Start(name)], Events(kids)[..k - 1]);
        StartSteps(m, name, Events(kids)[..k - 1]);
        if name == "Delete" && root.None? {
          DeletePrefixReads(m.(path := ["Delete"], content := "", sawRoot := true), kids, k - 1);
        }
      } else {
        var rest := Events(next)[..k - |OwnEvents(f)|];
        NoBadParts(OwnEvents(f), rest);
        KidsAreGood(f);
        OneRoot(m, f, rest, root);
        var read := ReadDocument(Alone(f), root);
        if read.Ok? {
          DocumentPrefixReads(Steps(m, OwnEvents(f)).value, next, k - |OwnEvents(f)|, read.value);
        }
      }
  }

  // A complete element of the top level, then whatever events follow.
  lemma OneRoot(m: Machine, f: Forest, rest: seq<Event>, root: Option<Request>)
    requires WellFormed(f) && f.Element? && Readable(f.kids) && AtTop(m, root)
    ensures
      var own, r, read := Steps(m, OwnEvents(f)), Steps(m, OwnEvents(f) + rest), ReadDocument(Alone(f), root);
      && (read.Err? ==> r.Err?)
      && (read.Ok? ==> own.Ok? && AtTop(own.value, read.value) && r == Steps(own.value, rest))
  {
    hide Step, Readable, AtTop, ReadDelete, ReadDocument;
    var alone := Alone(f);
    AloneIsFine(f);
    assert Events(alone) == OwnEvents(f) + [] == OwnEvents(f);
    DocumentForest(m, alone, root);
    StepsConcat(m, OwnEvents(f), rest);
  }

  lemma {:induction false} CutKidsReadable(f: Forest, k: nat)
    requires k <= |Events(f)| && NoBadLeaf(Events(f)[..k])
    ensures Readable(CutKids(f, k))
    decreases f
  {
    hide BadLeaf, NoBadLeaf;
    match f
    case Nil =>
    case Leaf(e, next) =>
      if k > 0 {
        LeafIsGood(f, k);
        CutKidsReadable(next, k - 1);
      }
    case Element(name, kids, short, next) =>
      ElementPrefix(f, k);
      if k >= |OwnEvents(f)| {
        NoBadParts(OwnEvents(f), Events(next)[..k - |OwnEvents(f)|]);
        KidsAreGood(f);
        CutKidsReadable(next, k - |OwnEvents(f)|);
      }
  }

  lemma LeafIsGood(f: Forest, k: nat)
    requires f.Leaf? && 0 < k <= |Events(f)| && NoBadLeaf(Events(f)[..k])
    ensures !BadLeaf(f.event) && NoBadLeaf(Events(f.next)[..k - 1])
  {
    hide BadLeaf;
    assert Events(f)[..k] == [f.event] + Events(f.next)[..k - 1];
    NoBadParts([f.event], Events(f.next)[..k - 1]);
    assert [f.event][0] == f.event;
  }

  lemma {:induction false} CutReadable(f: Forest, k: nat)
    requires k <= |Events(f)| && NoBadLeaf(Events(f)[..k])
    ensures Readable(Cut(f, k))
    decreases f
  {
    hide BadLeaf, NoBadLeaf;
    match f
    case Nil =>
    case Leaf(e, next) =>
      if k > 0 {
        LeafIsGood(f, k);
        CutReadable(next, k - 1);
      }
    case Element(name, kids, short, next) =>
      ElementPrefix(f, k);
      if k >= |OwnEvents(f)| {
        NoBadParts(OwnEvents(f), Events(next)[..k - |OwnEvents(f)|]);
        KidsAreGood(f);
        CutReadable(next, k - |OwnEvents(f)|);
      } else if k > 0 {
        NoBadParts([Start(name)], Events(kids)[..k - 1]);
        CutKidsReadable(kids, k - 1);
      }
  }

  // A document whose events stop anywhere parses as the document cut there: an open root counts as ended, an open
  // child of it as absent; and a bad reference among the events seen fails it. So a body is accepted from the moment
  // its first `Object` is closed, whether or not `Delete` is.
  lemma PrefixIsCut(doc: Forest, k: nat)
    requires WellFormed(doc) && k <= |Events(doc)|
    ensures ParseEvents(Events(doc)[..k])
         == if NoBadLeaf(Events(doc)[..k]) then Meaning(Cut(doc, k)) else Err(MalformedXml)
  {
    hide Step, Events, ReadDocument, Cut, NoBadLeaf, BadLeaf, Readable;
    var events := Events(doc)[..k];
    OnlyMalformed(INITIAL, events);
    if NoBadLeaf(events) {
      CutReadable(doc, k);
      DocumentPrefixReads(INITIAL, doc, k, None);
      MeaningOnlyMalformed(Cut(doc, k), None, Request([], false));
    } else {
      BadLeafFails(INITIAL, events);
    }
  }

  // Cut after its last event a document is itself.
  lemma {:induction false} WholeIsUncut(f: Forest)
    ensures CutKids(f, |Events(f)|) == f && Cut(f, |Events(f)|) == f
    decreases f
  {
    match f
    case Nil =>
    case Leaf(_, next) => WholeIsUncut(next);
    case Element(_, _, _, next) =>
      ElementPrefix(f, |Events(f)|);
      WholeIsUncut(next);
  }
}
