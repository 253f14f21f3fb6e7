// Which permissions a capability text grants and takes, word by word.
module CapsMeaning {
  import opened Rgw
  import opened Text
  import opened Users

  predicate ReadWord(part: string) {
    Trim(part) == "read" || Trim(part) == "*"
  }

  predicate WriteWord(part: string) {
    Trim(part) == "write" || Trim(part) == "*"
  }

  // The words of a comma-separated list.
  predicate SaysRead(parts: seq<string>) {
    exists i :: 0 <= i < |parts| && ReadWord(parts[i])
  }

  predicate SaysWrite(parts: seq<string>) {
    exists i :: 0 <= i < |parts| && WriteWord(parts[i])
  }

  predicate AllWords(parts: seq<string>) {
    forall i :: 0 <= i < |parts| ==> ReadWord(parts[i]) || WriteWord(parts[i])
  }

  lemma WordsFirst(parts: seq<string>)
    requires parts != []
    ensures SaysRead(parts) <==> ReadWord(parts[0]) || SaysRead(parts[1..])
    ensures SaysWrite(parts) <==> WriteWord(parts[0]) || SaysWrite(parts[1..])
    ensures AllWords(parts) <==> (ReadWord(parts[0]) || WriteWord(parts[0])) && AllWords(parts[1..])
  {
    hide ReadWord, WriteWord;
    assert parts == [parts[0]] + parts[1..];
  }

  lemma {:induction false} PartsMean(parts: seq<string>, perm: CapPerm)
    ensures ParseParts(parts, perm)
         == if AllWords(parts) then Ok(CapPerm(perm.read || SaysRead(parts), perm.write || SaysWrite(parts)))
            else Err(InvalidArgument)
  {
    hide Trim;
    if parts != [] {
      hide AllWords, SaysRead, SaysWrite;
      WordsFirst(parts);
      var p := PartPerm(Trim(parts[0]));
      if p.Some? { PartsMean(parts[1..], perm.Union(p.value)); }
    }
  }

  // A permission text is a list of `read`, `write` and `*`, and grants a bit exactly when some word says so.
  lemma ParsePermIs(text: string)
    ensures ParsePerm(text)
         == if AllWords(Split(text, ',')) then Ok(CapPerm(SaysRead(Split(text, ',')), SaysWrite(Split(text, ','))))
            else Err(InvalidArgument)
  {
    hide Split, AllWords, SaysRead, SaysWrite, ParseParts;
    PartsMean(Split(text, ','), NO_PERM);
  }

  // What a set of permissions prints as.
  lemma PermPrints(p: CapPerm, text: string)
    ensures p.ToString() == text && !p.IsNone()
      <==> (p, text) in [(CapPerm(true, true), "*"), (CapPerm(true, false), "read"), (CapPerm(false, true), "write")]
  {
  }

  // The types a capability may have.
  lemma CapTypes(s: string)
    ensures s in VALID_CAP_TYPES <==> CapType(s)
  {
  }

  predicate CapType(s: string) {
    || s == "user" || s == "users" || s == "bucket" || s == "buckets" || s == "metadata" || s == "info"
    || s == "usage" || s == "zone" || s == "bilog" || s == "mdlog" || s == "datalog" || s == "roles"
    || s == "user-policy" || s == "amz-cache" || s == "oidc-provider" || s == "ratelimit"
    || s == "user-info-without-keys" || s == "accounts"
  }

  // ------------------------------------------------------------- items

  // The item says `name=text`, and the name, trimmed, is the capability.
  ghost predicate About(item: string, cap: string, text: string) {
    exists name :: Trim(item) == name + "=" + text && '=' !in name && Trim(name) == cap
  }

  ghost predicate GoodItem(item: string) {
    exists cap, text :: About(item, cap, text) && CapType(cap) && AllWords(Split(text, ','))
  }

  ghost predicate GoodItems(items: seq<string>) {
    forall i :: 0 <= i < |items| ==> Trim(items[i]) == "" || GoodItem(items[i])
  }

  predicate Reads(caps: Caps, cap: string) {
    cap in caps && caps[cap].read
  }

  predicate Writes(caps: Caps, cap: string) {
    cap in caps && caps[cap].write
  }

  ghost predicate ItemReads(item: string, cap: string) {
    exists text :: About(item, cap, text) && SaysRead(Split(text, ','))
  }

  ghost predicate ItemWrites(item: string, cap: string) {
    exists text :: About(item, cap, text) && SaysWrite(Split(text, ','))
  }

  lemma AboutIs(item: string, cap: string, text: string)
    ensures About(item, cap, text)
      <==> SplitOnce(Trim(item), '=').Some? && SplitOnce(Trim(item), '=').value.1 == text
           && Trim(SplitOnce(Trim(item), '=').value.0) == cap
  {
    hide SplitOnce, Trim;
    SplitOnceShape(Trim(item), '=');
    if name :| Trim(item) == name + "=" + text && '=' !in name && Trim(name) == cap {
      SplitOnceIs(name, '=', text);
    }
  }

  // One item is taken exactly when it names a capability type and permissions, and adds those and no others.
  lemma AddItemIs(caps: Caps, item: string, cap: string)
    ensures AddItem(caps, Trim(item)).Ok? <==> GoodItem(item)
    ensures AddItem(caps, Trim(item)).Err? ==> AddItem(caps, Trim(item)) == Err(InvalidArgument)
    ensures AddItem(caps, Trim(item)).Ok? ==>
      var next := AddItem(caps, Trim(item)).value;
      && (Reads(next, cap) <==> Reads(caps, cap) || ItemReads(item, cap))
      && (Writes(next, cap) <==> Writes(caps, cap) || ItemWrites(item, cap))
  {
    hide SplitOnce, Trim, Split, VALID_CAP_TYPES, ParsePerm, CapType, AllWords, SaysRead, SaysWrite, About;
    var split := SplitOnce(Trim(item), '=');
    if split.Some? {
      CapTypes(Trim(split.value.0));
      ParsePermIs(split.value.1);
      AboutIs(item, Trim(split.value.0), split.value.1);
    }
    forall name, text ensures About(item, name, text) <==>
      split.Some? && split.value.1 == text && Trim(split.value.0) == name {
      AboutIs(item, name, text);
    }
  }

  ghost predicate SomeReads(items: seq<string>, cap: string) {
    exists i :: 0 <= i < |items| && ItemReads(items[i], cap)
  }

  ghost predicate SomeWrites(items: seq<string>, cap: string) {
    exists i :: 0 <= i < |items| && ItemWrites(items[i], cap)
  }

  lemma ItemsFirst(items: seq<string>, cap: string)
    requires items != []
    ensures SomeReads(items, cap) <==> ItemReads(items[0], cap) || SomeReads(items[1..], cap)
    ensures SomeWrites(items, cap) <==> ItemWrites(items[0], cap) || SomeWrites(items[1..], cap)
    ensures GoodItems(items) <==> (Trim(items[0]) == "" || GoodItem(items[0])) && GoodItems(items[1..])
  {
    hide ItemReads, ItemWrites, GoodItem, Trim;
    assert items == [items[0]] + items[1..];
  }

  lemma NothingAsked(item: string, cap: string)
    requires Trim(item) == ""
    ensures !ItemReads(item, cap) && !ItemWrites(item, cap)
  {
  }

  // A capability text is taken exactly when every item is blank or good; then a capability has a permission exactly
  // when it had it or some item grants it.
  lemma {:induction false} AddItemsMean(caps: Caps, items: seq<string>, cap: string)
    ensures AddItems(caps, items).1 == if GoodItems(items) then Ok(()) else Err(InvalidArgument)
    ensures GoodItems(items) ==>
      var next := AddItems(caps, items).0;
      && (Reads(next, cap) <==> Reads(caps, cap) || SomeReads(items, cap))
      && (Writes(next, cap) <==> Writes(caps, cap) || SomeWrites(items, cap))
    decreases |items|
  {
    if items != [] {
      hide AddItem, Trim, GoodItem, GoodItems, ItemReads, ItemWrites, SomeReads, SomeWrites, Reads, Writes;
      ItemsFirst(items, cap);
      if Trim(items[0]) == "" {
        NothingAsked(items[0], cap);
        AddItemsMean(caps, items[1..], cap);
      } else {
        AddItemIs(caps, items[0], cap);
        if GoodItem(items[0]) {
          AddItemsMean(AddItem(caps, Trim(items[0])).value, items[1..], cap);
        }
      }
    }
  }
}
