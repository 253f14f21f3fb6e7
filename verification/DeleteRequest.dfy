// The `<Delete>` request body: an event machine, and the recursive reading of the element tree it amounts to.
module DeleteRequest {
  import opened Rgw
  import opened Text
  import opened TextForms

  const MAX_MULTI_DELETE: nat := 1000

  datatype DeleteObject = DeleteObject(key: string, versionId: Option<string>)

  datatype Request = Request(objects: seq<DeleteObject>, quiet: bool)

  // What the XML reader hands over; names are local names, a character reference carries the text it denotes.
  // `Malformed` is a read error or a character reference out of range; `Misc` a comment, declaration or the like.
  // The end of the sequence is the end of the document.
  datatype Event =
    | Start(name: string)
    | Empty(name: string)
    | End
    | Chars(text: string)
    | CData(text: string)
    | CharRef(text: string)
    | EntityRef(entity: string)
    | Misc
    | Malformed

  // The five predefined entities (XML 1.0, section 4.6).
  function Entity(name: string): Option<string> {
    if name == "amp" then Some("&")
    else if name == "lt" then Some("<")
    else if name == "gt" then Some(">")
    else if name == "quot" then Some("\"")
    else if name == "apos" then Some("'")
    else None
  }

  function IsTrue(text: string): bool {
    Lower(Trim(text)) == "true"
  }

  // There are five names and no others.
  lemma EntityIs(name: string, text: string)
    ensures Entity(name) == Some(text)
      <==> (name, text) in [("amp", "&"), ("lt", "<"), ("gt", ">"), ("quot", "\""), ("apos", "'")]
  {
  }

  // The four letters in either case, with white space around them.
  predicate SpellsTrue(word: string) {
    |word| == 4 && word[0] in "tT" && word[1] in "rR" && word[2] in "uU" && word[3] in "eE"
  }

  lemma IsTrueIs(text: string)
    ensures IsTrue(text) <==> exists word :: SpellsTrue(word) && Padded(text, word)
  {
    hide Trim, Bare, Padded, Blank, Lower;
    var word := Trim(text);
    TrimIs(text, word);
    TrueIs(word);
    if w :| SpellsTrue(w) && Padded(text, w) {
      TrueIs(w);
      TrimIs(text, w);
    }
  }

  lemma TrueIs(word: string)
    ensures Lower(word) == "true" <==> SpellsTrue(word)
    ensures SpellsTrue(word) ==> Bare(word)
  {
    BlankIsSpace(word);
    if |word| == 4 {
      assert Lower(word) == [LowerChar(word[0]), LowerChar(word[1]), LowerChar(word[2]), LowerChar(word[3])];
    }
  }

  // ------------------------------------------------------------- the machine

  datatype Machine = Machine(path: seq<string>, content: string, key: Option<string>, versionId: Option<string>,
                             req: Request, sawRoot: bool)

  function Open(m: Machine, name: string): Result<Machine> {
    if m.path == [] && (name != "Delete" || m.sawRoot) then Err(MalformedXml)
    else
      var reset := if |m.path| == 1 && name == "Object" then m.(key := None, versionId := None) else m;
      Ok(reset.(sawRoot := m.sawRoot || m.path == [], path := m.path + [name], content := ""))
  }

  function Pop(path: seq<string>): seq<string> {
    if path == [] then [] else path[..|path| - 1]
  }

  function Close(m: Machine): Result<Machine> {
    var left := m.(content := "", path := Pop(m.path));
    if m.path == ["Delete", "Object", "Key"] then Ok(left.(key := Some(m.content)))
    else if m.path == ["Delete", "Object", "VersionId"] then Ok(left.(versionId := Some(m.content)))
    else if m.path == ["Delete", "Object"] then
      if m.key.None? then Err(MalformedXml)
      else
        var req := m.req.(objects := m.req.objects + [DeleteObject(m.key.value, m.versionId)]);
        Ok(left.(key := None, versionId := None, req := req))
    else if m.path == ["Delete", "Quiet"] then Ok(left.(req := m.req.(quiet := IsTrue(m.content))))
    else Ok(left)
  }

  function Step(m: Machine, e: Event): Result<Machine> {
    match e
    case Start(name) => Open(m, name)
    case Empty(name) => var inside :- Open(m, name); Close(inside)
    case End => Close(m)
    case Chars(s) => Ok(m.(content := m.content + s))
    case CData(s) => Ok(m.(content := m.content + s))
    case CharRef(s) => Ok(m.(content := m.content + s))
    case EntityRef(name) =>
      if Entity(name).None? then Err(MalformedXml) else Ok(m.(content := m.content + Entity(name).value))
    case Misc => Ok(m)
    case Malformed => Err(MalformedXml)
  }

  function Steps(m: Machine, events: seq<Event>): Result<Machine>
    decreases |events|
  {
    if events == [] then Ok(m)
    else
      var next :- Step(m, events[0]);
      Steps(next, events[1..])
  }

  const INITIAL := Machine([], "", None, None, Request([], false), false)

  function Finish(m: Machine): Result<Request> {
    if !m.sawRoot || m.req.objects == [] || |m.req.objects| > MAX_MULTI_DELETE then Err(MalformedXml) else Ok(m.req)
  }

  function ParseEvents(events: seq<Event>): Result<Request> {
    var m :- Steps(INITIAL, events);
    Finish(m)
  }

  // `parse_delete_request`, over the reader's events.
  method ParseDeleteRequest(events: seq<Event>) returns (r: Result<Request>)
    ensures r == ParseEvents(events)
  {
    hide Entity, IsTrue;
    var path: seq<string>, content := [], "";
    var key: Option<string>, versionId: Option<string> := None, None;
    var req, sawRoot := Request([], false), false;
    for i := 0 to |events|
      invariant Steps(INITIAL, events) == Steps(Machine(path, content, key, versionId, req, sawRoot), events[i..])
    {
      ghost var before := Machine(path, content, key, versionId, req, sawRoot);
      assert events[i..][1..] == events[i + 1..] && events[i..][0] == events[i];
      var open, close := None, false;
      match events[i] {
        case Start(name) => open := Some(name);
        case Empty(name) => open, close := Some(name), true;
        case End => close := true;
        case Chars(s) => content := content + s;
        case CData(s) => content := content + s;
        case CharRef(s) => content := content + s;
        case EntityRef(name) =>
          var text := Entity(name);
          if text.None? { return Err(MalformedXml); }
          content := content + text.value;
        case Misc =>
        case Malformed => return Err(MalformedXml);
      }
      if open.Some? {
        if path == [] {
          if open.value != "Delete" || sawRoot { return Err(MalformedXml); }
          sawRoot := true;
        }
        if |path| == 1 && open.value == "Object" {
          key, versionId := None, None;
        }
        path := path + [open.value];
        content := "";
      }
      if close {
        var taken := content;
        content := "";
        if path == ["Delete", "Object", "Key"] {
          key := Some(taken);
        } else if path == ["Delete", "Object", "VersionId"] {
          versionId := Some(taken);
        } else if path == ["Delete", "Object"] {
          if key.None? { return Err(MalformedXml); }
          req := req.(objects := req.objects + [DeleteObject(key.value, versionId)]);
          key, versionId := None, None;
        } else if path == ["Delete", "Quiet"] {
          req := req.(quiet := IsTrue(taken));
        }
        path := Pop(path);
      }
      assert Step(before, events[i]) == Ok(Machine(path, content, key, versionId, req, sawRoot));
    }
    return Finish(Machine(path, content, key, versionId, req, sawRoot));
  }
}
