// HTTP byte ranges: parsing, the two resolvers, and the bytes they select.
module Ranges {
  import opened Rgw
  import opened Text
  import opened Entities

  // `parse_range`: one `bytes=` range; anything else is ignored by the caller.
  function ParseRange(header: string): Option<ByteRange> {
    var text := Trim(header);
    if !("bytes=" <= text) then None
    else
      var spec := Trim(text[|"bytes="|..]);
      var split := SplitOnce(spec, '-');
      if ',' in spec || split.None? then None
      else
        var start, end := Trim(split.value.0), Trim(split.value.1);
        if start == "" then
          match ParseU64(end)
          case None => None
          case Some(n) => Some(Suffix(n))
        else
          match ParseU64(start)
          case None => None
          case Some(first) =>
            if end == "" then Some(Absolute(first, None))
            else
              match ParseU64(end)
              case None => None
              case Some(last) => if first <= last then Some(Absolute(first, Some(last))) else None
  }

  // The handler's resolver, used for HEAD.
  function ResolveForHead(range: ByteRange, size: nat): Option<(nat, nat)> {
    if size == 0 then None
    else
      var last: nat := size - 1;
      match range
      case Absolute(start, end) =>
        if start <= last then Some((start, if end.Some? && end.value < last then end.value else last)) else None
      case Suffix(n) =>
        if n == 0 then None else Some((if n <= size then size - n else 0, last))
  }

  // The driver's resolver, used for GET.
  function Resolve(range: ByteRange, size: nat): Result<(nat, nat)> {
    if size == 0 then Err(InvalidRange)
    else
      var last: nat := size - 1;
      match range
      case Absolute(start, end) =>
        var stop := if end.Some? && end.value < last then end.value else last;
        if start > last || stop < start then Err(InvalidRange) else Ok((start, stop))
      case Suffix(n) =>
        if n == 0 then Err(InvalidRange) else Ok((size - (if n < size then n else size), last))
  }

  // Which bytes a range asks for (RFC 9110, section 14.1.2): clamped at the end, counted from the end for a suffix.
  ghost predicate Selects(range: ByteRange, size: nat, k: nat) {
    match range
    case Absolute(start, end) => start <= k < size && (end.Some? ==> k <= end.value)
    case Suffix(n) => k < size && size <= k + n
  }

  // The driver resolves to exactly the selected bytes, and refuses exactly the ranges that select none.
  lemma ResolveSelects(range: ByteRange, size: nat)
    ensures Resolve(range, size).Ok? ==> Resolve(range, size).value.0 <= Resolve(range, size).value.1 < size
    ensures Resolve(range, size).Ok? ==> forall k: nat ::
      Resolve(range, size).value.0 <= k <= Resolve(range, size).value.1 <==> Selects(range, size, k)
    ensures Resolve(range, size).Err? <==> forall k: nat :: !Selects(range, size, k)
  {
    if Resolve(range, size).Ok? {
      assert Selects(range, size, Resolve(range, size).value.0);
    }
  }

  // The two resolvers agree except on an inverted range that starts inside the object.
  lemma ResolversAgree(range: ByteRange, size: nat)
    ensures
      (match Resolve(range, size)
       case Ok(pair) => ResolveForHead(range, size) == Some(pair)
       case Err(_) => ResolveForHead(range, size) == None)
      <==> !(range.Absolute? && range.end.Some? && range.end.value < range.start < size)
  {
  }

  // No header parses to an inverted range, so HEAD and GET answer every header alike.
  lemma HeadersAgree(header: string, size: nat)
    requires ParseRange(header).Some?
    ensures
      var range := ParseRange(header).value;
      match Resolve(range, size)
      case Ok(pair) => ResolveForHead(range, size) == Some(pair)
      case Err(_) => ResolveForHead(range, size) == None
  {
    hide Trim, ParseU64, SplitOnce;
    ResolversAgree(ParseRange(header).value, size);
  }

  // ------------------------------------------------------------- the bytes served

  // SQLite's `substr(data, from, len)` on a BLOB: 1-based, clamped to the BLOB.
  function Substr(data: string, from: nat, len: nat): string
    requires from >= 1
  {
    var lo := if from - 1 <= |data| then from - 1 else |data|;
    var hi := if lo + len <= |data| then lo + len else |data|;
    data[lo..hi]
  }

  // `Content-Length` of the response.
  function ContentLength(size: nat, range: Option<(nat, nat)>): int {
    match range
    case None => size
    case Some((start, end)) => end - start + 1
  }

  // The body of a ranged GET is exactly the selected bytes in order, and its length is the one reported; nothing
  // in the arithmetic of either path underflows.
  lemma RangedBody(data: string, range: ByteRange)
    requires Resolve(range, |data|).Ok?
    ensures
      var (start, end) := Resolve(range, |data|).value;
      var body := Substr(data, start + 1, end - start + 1);
      && body == data[start..end + 1]
      && |body| == ContentLength(|data|, Some((start, end)))
  {
    ResolveSelects(range, |data|);
  }
}
