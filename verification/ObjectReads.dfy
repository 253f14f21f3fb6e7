// GET and HEAD of an object: which range is served, and what the response reports.
module ObjectReads {
  import opened Rgw
  import opened Entities
  import opened Ranges
  import opened Tables
  import opened SqliteDriver

  // A range turns the status to 206 and adds `Content-Range`; `Unsatisfiable` is the 416 with the object's size.
  datatype Reply =
    | Served(info: ObjectInfo, range: Option<(nat, nat)>, contentLength: int)
    | Unsatisfiable(size: nat)
    | Failed(error: RgwError)

  function RangeOf(header: Option<string>): Option<ByteRange> {
    if header.None? then None else ParseRange(header.value)
  }

  function Respond(info: ObjectInfo, range: Option<(nat, nat)>): Reply {
    Served(info, range, ContentLength(info.size, range))
  }

  // The answer both methods give, body apart.
  function ReplyTo(t: Db, bucketId: string, name: string, header: Option<string>): Reply {
    match HeadObject(t, bucketId, name)
    case Err(e) => Failed(e)
    case Ok(info) =>
      match RangeOf(header)
      case None => Respond(info, None)
      case Some(range) =>
        match Resolve(range, info.size)
        case Ok(pair) => Respond(info, Some(pair))
        case Err(_) => Unsatisfiable(info.size)
  }

  // `get_object` without data: metadata from the driver, the range resolved here.
  method Head(driver: Driver, bucketId: string, name: string, header: Option<string>) returns (reply: Reply)
    ensures reply == ReplyTo(driver.State(), bucketId, name, header)
  {
    hide ParseRange, Resolve, ResolveForHead, Tables.HeadObject;
    var range := RangeOf(header);
    var found := driver.HeadObject(bucketId, name);
    match found {
      case Err(e) => return Failed(e);
      case Ok(info) =>
        if range.None? { return Respond(info, None); }
        HeadersAgree(header.value, info.size);
        var resolved := ResolveForHead(range.value, info.size);
        if resolved.None? { return Unsatisfiable(info.size); }
        return Respond(info, resolved);
    }
  }

  // `get_object` with data: the driver resolves the range and cuts the payload. The body is exactly the bytes the
  // range selects, or all of them, and as long as reported.
  method Get(driver: Driver, bucketId: string, name: string, header: Option<string>)
    returns (reply: Reply, body: string)
    requires ObjectsPlaced(driver.State())
    ensures reply == ReplyTo(driver.State(), bucketId, name, header)
    ensures reply.Served? ==>
      && ObjectId(bucketId, name) in driver.objects
      && body == Selected(driver.objects[ObjectId(bucketId, name)].data, reply.range) && |body| == reply.contentLength
  {
    hide ParseRange, Resolve, Tables.HeadObject;
    body := "";
    var range := RangeOf(header);
    var read := driver.GetObject(bucketId, name, range);
    ReadMeaning(driver.State(), bucketId, name, header);
    match read {
      case Ok(r) => reply, body := Respond(r.info, r.range), r.body;
      case Err(InvalidRange) =>
        var found := driver.HeadObject(bucketId, name);
        match found {
          case Err(e) => reply := Failed(e);
          case Ok(info) => reply := Unsatisfiable(info.size);
        }
      case Err(e) => reply := Failed(e);
    }
  }

  function Selected(data: string, range: Option<(nat, nat)>): string {
    match range
    case None => data
    case Some((start, end)) => if start <= end < |data| then data[start..end + 1] else ""
  }

  lemma ReadMeaning(t: Db, bucketId: string, name: string, header: Option<string>)
    requires ObjectsPlaced(t)
    ensures
      match GetObject(t, bucketId, name, RangeOf(header))
      case Ok(r) =>
        && ReplyTo(t, bucketId, name, header) == Respond(r.info, r.range)
        && ObjectId(bucketId, name) in t.objects
        && r.body == Selected(t.objects[ObjectId(bucketId, name)].data, r.range)
        && |r.body| == ContentLength(r.info.size, r.range)
      case Err(InvalidRange) => ReplyTo(t, bucketId, name, header).Unsatisfiable?
                                && HeadObject(t, bucketId, name).Ok?
      case Err(e) => ReplyTo(t, bucketId, name, header) == Failed(e)
  {
    hide ParseRange, Resolve, BucketExists;
    if HeadObject(t, bucketId, name).Ok? {
      var data := t.objects[ObjectId(bucketId, name)].data;
      match RangeOf(header)
      case None =>
      case Some(range) =>
        ResolveSelects(range, |data|);
        ResolveErr(range, |data|);
        if Resolve(range, |data|).Ok? { RangedBody(data, range); }
    }
  }

  lemma ResolveErr(range: ByteRange, size: nat)
    ensures Resolve(range, size).Err? ==> Resolve(range, size) == Err(InvalidRange)
  {
  }
}
