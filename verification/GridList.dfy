/** pj_gridlist.c: the list of grids loaded so far, and the growing array of grids
    collected for one nadgrids string.  Reading a grid file is a function from the
    name to the chain of grids it yields. */
module GridList {
  import opened Common

  // A loaded grid, or the stub kept for a file that could not be used.
  datatype Grid = Grid(gridname: string, usable: bool, id: int)

  // What opening a file yields: never nothing, every grid carries the file's name,
  // and either one stub or only usable grids.
  ghost predicate Opens(chain: seq<Grid>, name: string) {
    && |chain| >= 1
    && (forall i :: 0 <= i < |chain| ==> chain[i].gridname == name)
    && (|chain| == 1 || forall i :: 0 <= i < |chain| ==> chain[i].usable)
  }

  type Reader = string -> seq<Grid>

  ghost predicate Reads(read: Reader) {
    forall name: string :: Opens(read(name), name)
  }

  // the grids of one name, in list order
  function Matches(grids: seq<Grid>, name: string): (m: seq<Grid>)
    ensures forall g :: g in m ==> g.gridname == name
  {
    if grids == [] then []
    else if grids[0].gridname == name then [grids[0]] + Matches(grids[1..], name)
    else Matches(grids[1..], name)
  }

  lemma {:induction false} MatchesConcat(a: seq<Grid>, b: seq<Grid>, name: string)
    ensures Matches(a + b, name) == Matches(a, name) + Matches(b, name)
  {
    if a == [] {
      assert a + b == b;
    } else {
      assert (a + b)[1..] == a[1..] + b;
      MatchesConcat(a[1..], b, name);
    }
  }

  lemma {:induction false} MatchesAll(a: seq<Grid>, name: string)
    requires forall i :: 0 <= i < |a| ==> a[i].gridname == name
    ensures Matches(a, name) == a
  {
    if a != [] {
      MatchesAll(a[1..], name);
    }
  }

  lemma {:induction false} MatchesNone(a: seq<Grid>, name: string)
    requires forall i :: 0 <= i < |a| ==> a[i].gridname != name
    ensures Matches(a, name) == []
  {
    if a != [] {
      MatchesNone(a[1..], name);
    }
  }

  // ---------- the cache ----------

  // the grids after loading the given names in order
  function Loaded(read: Reader, names: seq<string>): seq<Grid> {
    if names == [] then [] else Loaded(read, names[..|names| - 1]) + read(names[|names| - 1])
  }

  ghost predicate Distinct(names: seq<string>) {
    forall i, j :: 0 <= i < j < |names| ==> names[i] != names[j]
  }

  // Searching the loaded grids finds the whole chain of a loaded name, once.
  lemma {:induction false} LoadedMatches(read: Reader, names: seq<string>, name: string)
    requires Reads(read) && Distinct(names)
    ensures Matches(Loaded(read, names), name) == if name in names then read(name) else []
  {
    if names != [] {
      var init, last := names[..|names| - 1], names[|names| - 1];
      assert names == init + [last];
      LoadedMatches(read, init, name);
      MatchesConcat(Loaded(read, init), read(last), name);
      assert Opens(read(last), last);
      if last == name {
        assert name !in init;
        MatchesAll(read(last), name);
      } else {
        MatchesNone(read(last), name);
      }
    }
  }

  // names with one more name remembered
  function Touch(names: seq<string>, name: string): (r: seq<string>)
    ensures name in r && forall n :: n in names ==> n in r
    ensures name in names ==> r == names
  {
    if name in names then names else names + [name]
  }

  class GridCache {
    const read: Reader
    var grids: seq<Grid>
    ghost var names: seq<string>

    ghost predicate Valid()
      reads this
    {
      Reads(read) && Distinct(names) && grids == Loaded(read, names)
    }

    constructor (read: Reader)
      requires Reads(read)
      ensures Valid() && this.read == read && names == []
    {
      this.read := read;
      grids := [];
      names := [];
    }

    // pj_deallocate_grids
    method Deallocate()
      modifies this
      requires Valid()
      ensures Valid() && names == [] && grids == []
    {
      while grids != []
        decreases |grids|
      {
        grids := grids[1..];
      }
      names := [];
    }

    // Walk the loaded grids and append every one of the given name; stop at a stub.
    method Scan(gridname: string, result: GridArray) returns (gotMatch: bool, stub: bool)
      requires Valid() && result.Valid()
      requires var m := Matches(grids, gridname); |m| <= 1 || forall i :: 0 <= i < |m| ==> m[i].usable
      modifies result, result.items
      ensures result.Valid()
      ensures result.items == old(result.items) || fresh(result.items)
      ensures gotMatch <==> Matches(grids, gridname) != []
      ensures stub <==> gotMatch && !Matches(grids, gridname)[0].usable
      ensures result.contents
           == if stub then old(result.contents) else old(result.contents) + Matches(grids, gridname)
    {
      hide Matches, Reads, Loaded, Distinct, Scanning;
      gotMatch := false;
      var k := 0;
      ghost var before, m := result.contents, Matches(grids, gridname);
      ghost var done, rest := [], m;
      assert grids[0..] == grids;
      ScanningStart(m);
      while k < |grids|
        invariant 0 <= k <= |grids|
        invariant result.Valid()
        invariant result.items == old(result.items) || fresh(result.items)
        invariant rest == Matches(grids[k..], gridname)
        invariant result.contents == before + done
        invariant Scanning(m, done, rest, gotMatch)
      {
        var g := grids[k];
        MatchesUnfold(grids, k, gridname);
        if g.gridname == gridname {
          FirstStub(done, g, rest, m, gotMatch);
          gotMatch := true;
          if !g.usable {
            return true, true;
          }
          result.Append(g);
          done, rest := done + [g], rest[1..];
        }
        k := k + 1;
      }
      MatchesEnd(grids, gridname);
      ScanningEnd(m, done, gotMatch);
      return gotMatch, false;
    }

    // pj_gridlist_merge_gridfile: find the named grids, loading the file the first
    // time, and append them to the result.  A stub makes it fail without appending.
    method Merge(gridname: string, result: GridArray) returns (ok: bool)
      requires Valid() && result.Valid()
      modifies this, result, result.items
      ensures Valid() && result.Valid()
      ensures names == Touch(old(names), gridname)
      ensures |read(gridname)| >= 1 && (ok <==> read(gridname)[0].usable)
      ensures result.contents == if ok then old(result.contents) + read(gridname) else old(result.contents)
      ensures result.items == old(result.items) || fresh(result.items)
      decreases if gridname in names then 0 else 1
    {
      hide Matches, Loaded, Distinct;
      OpensNonempty(read, gridname);
      LoadedMatches(read, names, gridname);
      var gotMatch, stub := Scan(gridname, result);
      if stub {
        return false;
      }
      if gotMatch {
        return true;
      }
      assert result.contents == old(result.contents);
      LoadFile(gridname);
      ok := Merge(gridname, result);
    }

    // pj_gridinfo_init, with the chain it makes hung behind the known grids
    method LoadFile(gridname: string)
      requires Valid() && gridname !in names
      modifies this
      ensures Valid() && names == old(names) + [gridname]
    {
      LoadedAppend(read, names, gridname);
      grids := grids + read(gridname);
      names := names + [gridname];
    }
  }

  lemma OpensNonempty(read: Reader, name: string)
    requires Reads(read)
    ensures Opens(read(name), name) && |read(name)| >= 1
  {
  }

  lemma LoadedAppend(read: Reader, names: seq<string>, name: string)
    ensures Loaded(read, names + [name]) == Loaded(read, names) + read(name)
  {
    assert (names + [name])[..|names|] == names;
  }

  lemma MatchesUnfold(grids: seq<Grid>, k: nat, name: string)
    requires k < |grids|
    ensures Matches(grids[k..], name)
         == (if grids[k].gridname == name then [grids[k]] else []) + Matches(grids[k + 1..], name)
  {
    assert grids[k..][1..] == grids[k + 1..];
  }

  // the matches appended and those still to come
  ghost predicate Scanning(m: seq<Grid>, done: seq<Grid>, rest: seq<Grid>, gotMatch: bool) {
    && done + rest == m && (gotMatch <==> done != []) && (gotMatch ==> done[0].usable)
  }

  lemma ScanningStart(m: seq<Grid>)
    ensures Scanning(m, [], m, false)
  {
  }

  lemma ScanningEnd(m: seq<Grid>, done: seq<Grid>, gotMatch: bool)
    requires Scanning(m, done, [], gotMatch)
    ensures done == m && (gotMatch <==> m != []) && (gotMatch ==> m[0].usable)
  {
    assert done + [] == done;
  }

  // A stub can only be met as the sole match; a usable grid moves to the done part.
  lemma FirstStub(done: seq<Grid>, g: Grid, rest: seq<Grid>, m: seq<Grid>, gotMatch: bool)
    requires Scanning(m, done, rest, gotMatch) && rest != [] && rest[0] == g
    requires |m| <= 1 || forall i :: 0 <= i < |m| ==> m[i].usable
    ensures m != []
    ensures !g.usable ==> done == [] && m[0] == g
    ensures g.usable ==> Scanning(m, done + [g], rest[1..], true)
  {
    assert m[|done|] == g;
  }

  lemma MatchesEnd(grids: seq<Grid>, name: string)
    ensures Matches(grids[|grids|..], name) == []
  {
  }

  // The array of grids being collected: count entries, then a terminator.
  class GridArray {
    var items: array?<Option<Grid>>
    var count: nat
    var max: nat
    ghost var contents: seq<Grid>

    ghost predicate Valid()
      reads this, items
    {
      && |contents| == count
      && (items == null ==> count == 0 && max == 0)
      && (items != null ==>
            && items.Length == max && 1 <= count < max && items[count] == None
            && forall i :: 0 <= i < count ==> items[i] == Some(contents[i]))
    }

    constructor ()
      ensures Valid() && contents == [] && items == null
    {
      items, count, max, contents := null, 0, 0, [];
    }

    // A larger array with the old entries.
    method Grow(newMax: nat) returns (newList: array<Option<Grid>>)
      requires Valid() && newMax > max
      ensures fresh(newList) && newList.Length == newMax
      ensures items != null ==> forall k :: 0 <= k < max ==> newList[k] == items[k]
    {
      newList := new Option<Grid>[newMax](_ => None);
      if items != null {
        var i := 0;
        while i < max
          invariant 0 <= i <= max
          invariant forall k :: 0 <= k < i ==> newList[k] == items[k]
        {
          newList[i] := items[i];
          i := i + 1;
        }
      }
    }

    // Add one grid and move the terminator, growing by twenty places when fewer
    // than three are left.
    method Append(g: Grid)
      requires Valid()
      modifies this, items
      ensures Valid()
      ensures contents == old(contents) + [g] && items != null
      ensures items == old(items) || fresh(items)
    {
      if count >= max - 2 {
        var newMax := max + 20;
        var newList := Grow(newMax);
        items := newList;
        max := newMax;
      }
      items[count] := Some(g);
      count := count + 1;
      items[count] := None;
      contents := contents + [g];
    }
  }

  // ---------- a nadgrids string ----------

  datatype Entry = Entry(name: string, required: bool)

  function NameEnd(s: string, i: nat): (e: nat)
    requires i <= |s|
    ensures i <= e <= |s|
    ensures e < |s| ==> s[e] == ','
    ensures forall k :: i <= k < e ==> s[k] != ','
    decreases |s| - i
  {
    if i == |s| || s[i] == ',' then i else NameEnd(s, i + 1)
  }

  // the first entry of a nonempty string and what follows its comma
  function FirstEntry(s: string): (Entry, string)
    requires s != ""
  {
    var optional := s[0] == '@';
    var t := if optional then s[1..] else s;
    var e := NameEnd(t, 0);
    (Entry(t[..e], !optional), if e < |t| then t[e + 1..] else [])
  }

  function Entries(s: string): seq<Entry>
    decreases |s|
  {
    if s == "" then [] else [FirstEntry(s).0] + Entries(FirstEntry(s).1)
  }

  // ---------- what a string asks for ----------

  predicate HasComma(name: string) {
    exists i :: 0 <= i < |name| && name[i] == ','
  }

  // a name as it is written: an at sign in front makes it optional
  function Asked(e: Entry): string {
    if e.required then e.name else "@" + e.name
  }

  // the names written one after the other, with commas between them
  function Text(list: seq<Entry>): string {
    if list == [] then ""
    else if |list| == 1 then Asked(list[0])
    else Asked(list[0]) + "," + Text(list[1..])
  }

  ghost predicate NoCommas(list: seq<Entry>) {
    forall k :: 0 <= k < |list| ==> !HasComma(list[k].name)
  }

  // No required name looks like an optional one, and the last one is not empty.
  ghost predicate Readable(list: seq<Entry>) {
    && (forall k :: 0 <= k < |list| && list[k].required && list[k].name != "" ==> list[k].name[0] != '@')
    && (list != [] && list[|list| - 1].required ==> list[|list| - 1].name != "")
  }

  lemma {:induction false} NameEndAt(s: string, i: nat, e: nat)
    requires i <= e <= |s| && (e < |s| ==> s[e] == ',') && forall k :: i <= k < e ==> s[k] != ','
    ensures NameEnd(s, i) == e
    decreases e - i
  {
    if i < e {
      NameEndAt(s, i + 1, e);
    }
  }

  // A name and a comma, or a name alone.
  lemma FirstAsked(e: Entry, rest: string, comma: bool)
    requires !HasComma(e.name) && (!comma ==> rest == "")
    requires var s := Asked(e) + (if comma then "," + rest else "");
      s != "" && (e.required && e.name != "" ==> e.name[0] != '@')
    ensures FirstEntry(Asked(e) + (if comma then "," + rest else "")) == (e, rest)
  {
    hide NameEnd, HasComma, FirstEntry;
    if e.required {
      FirstRequired(e, rest, comma);
    } else {
      FirstOptional(e, rest, comma);
    }
  }

  lemma FirstRequired(e: Entry, rest: string, comma: bool)
    requires !HasComma(e.name) && (!comma ==> rest == "") && e.required
    requires e.name + (if comma then "," + rest else "") != "" && (e.name != "" ==> e.name[0] != '@')
    ensures Asked(e) == e.name && FirstEntry(e.name + (if comma then "," + rest else "")) == (e, rest)
  {
    hide NameEnd, HasComma;
    var t := e.name + (if comma then "," + rest else "");
    NameThere(e.name, rest, comma, t);
    assert t[0] != '@';
  }

  lemma FirstOptional(e: Entry, rest: string, comma: bool)
    requires !HasComma(e.name) && (!comma ==> rest == "") && !e.required
    ensures Asked(e) == "@" + e.name
    ensures FirstEntry("@" + e.name + (if comma then "," + rest else "")) == (e, rest)
  {
    hide NameEnd, HasComma;
    var t := e.name + (if comma then "," + rest else "");
    NameThere(e.name, rest, comma, t);
    assert "@" + e.name + (if comma then "," + rest else "") == "@" + t;
    assert ("@" + t)[1..] == t && ("@" + t)[0] == '@';
  }

  lemma NameThere(name: string, rest: string, comma: bool, t: string)
    requires !HasComma(name) && (!comma ==> rest == "") && t == name + (if comma then "," + rest else "")
    ensures NameEnd(t, 0) == |name| <= |t| && t[..|name|] == name
    ensures |name| < |t| <==> comma
    ensures comma ==> t[|name| + 1..] == rest
  {
    hide NameEnd;
    forall k | 0 <= k < |name|
      ensures t[k] != ','
    {
      assert t[k] == name[k];
    }
    NameEndAt(t, 0, |name|);
  }

  lemma MisreadFirst(e: Entry, end: string)
    requires e.required && e.name != "" && e.name[0] == '@'
    ensures Asked(e) + end != "" && FirstEntry(Asked(e) + end).0 != e
  {
    hide NameEnd;
  }

  // The names are read back, in order and with what they require, exactly when the list is
  // readable.
  lemma {:induction false} TextEntries(list: seq<Entry>)
    requires NoCommas(list)
    ensures Entries(Text(list)) == list <==> Readable(list)
    decreases |list|
  {
    hide NameEnd, FirstEntry;
    if list != [] {
      var e, rest, comma := list[0], Text(list[1..]), |list| > 1;
      TextUnfold(list);
      assert list == [e] + list[1..];
      if e.required && e.name != "" && e.name[0] == '@' {
        MisreadFirst(e, if comma then "," + rest else "");
      } else if Text(list) != "" {
        FirstAsked(e, rest, comma);
        TextEntries(list[1..]);
        ReadableTail(list);
      }
    }
  }

  lemma TextUnfold(list: seq<Entry>)
    requires list != []
    ensures Text(list) == Asked(list[0]) + (if |list| > 1 then "," + Text(list[1..]) else "")
    ensures |list| == 1 ==> Text(list[1..]) == ""
    ensures Text(list) == "" <==> |list| == 1 && list[0].required && list[0].name == ""
  {
  }

  lemma ReadableTail(list: seq<Entry>)
    requires list != [] && (list[0].required && list[0].name != "" ==> list[0].name[0] != '@')
    requires |list| == 1 && list[0].required ==> list[0].name != ""
    ensures Readable(list) <==> Readable(list[1..])
  {
    var rest := list[1..];
    assert forall k :: 0 < k < |list| ==> list[k] == rest[k - 1];
  }

  const NAME_SIZE: nat := 128

  // Collecting entry by entry: fails at a name that is too long or at a required
  // grid that is only a stub; otherwise the chains of the usable names in order.
  function Collect(read: Reader, entries: seq<Entry>): Option<seq<Grid>>
    requires forall e :: e in entries ==> |read(e.name)| >= 1
  {
    if entries == [] then Some([])
    else if |entries[0].name| >= NAME_SIZE then None
    else
      var chain := read(entries[0].name);
      if !chain[0].usable && entries[0].required then None
      else
        match Collect(read, entries[1..])
        case None => None
        case Some(rest) => Some((if chain[0].usable then chain else []) + rest)
  }

  // the request cannot be met: a name is too long, or a required grid is only a stub
  ghost predicate Blocks(read: Reader, e: Entry) {
    |e.name| >= 128 || (e.required && |read(e.name)| >= 1 && !read(e.name)[0].usable)
  }

  // the usable grids of the names, in order
  ghost function Chains(read: Reader, entries: seq<Entry>): seq<Grid> {
    if entries == [] then []
    else
      var chain := read(entries[0].name);
      (if |chain| >= 1 && chain[0].usable then chain else []) + Chains(read, entries[1..])
  }

  // It fails exactly when some entry blocks it, wherever that stands.
  lemma {:induction false} CollectExact(read: Reader, entries: seq<Entry>)
    requires forall e :: e in entries ==> |read(e.name)| >= 1
    ensures Collect(read, entries)
         == if exists e :: e in entries && Blocks(read, e) then None else Some(Chains(read, entries))
  {
    if entries != [] {
      CollectExact(read, entries[1..]);
      assert entries == [entries[0]] + entries[1..];
      if Blocks(read, entries[0]) {
        assert entries[0] in entries;
      }
    }
  }

  // the names the request looks up before it succeeds or fails
  function NamesAfter(read: Reader, names: seq<string>, entries: seq<Entry>): (r: seq<string>)
    requires forall e :: e in entries ==> |read(e.name)| >= 1
    ensures forall n :: n in names ==> n in r
    decreases |entries|
  {
    if entries == [] || |entries[0].name| >= NAME_SIZE then names
    else
      var after := Touch(names, entries[0].name);
      if !read(entries[0].name)[0].usable && entries[0].required then after
      else NamesAfter(read, after, entries[1..])
  }

  // A second request leaves the cache as the first one left it.
  lemma {:induction false} NamesSettled(read: Reader, names: seq<string>, entries: seq<Entry>, more: seq<string>)
    requires forall e :: e in entries ==> |read(e.name)| >= 1
    requires forall n :: n in NamesAfter(read, names, entries) ==> n in more
    ensures NamesAfter(read, more, entries) == more
    decreases |entries|
  {
    if entries == [] || |entries[0].name| >= NAME_SIZE {
    } else {
      var after := Touch(names, entries[0].name);
      assert entries[0].name in after;
      if !(!read(entries[0].name)[0].usable && entries[0].required) {
        NamesSettled(read, after, entries[1..], more);
      }
    }
  }

  function Prepend(done: seq<Grid>, r: Option<seq<Grid>>): Option<seq<Grid>> {
    match r
    case None => None
    case Some(rest) => Some(done + rest)
  }

  lemma PrependEmpty(r: Option<seq<Grid>>)
    ensures Prepend([], r) == r
  {
    if r.Some? {
      assert [] + r.value == r.value;
    }
  }

  lemma PrependTwice(a: seq<Grid>, b: seq<Grid>, r: Option<seq<Grid>>)
    ensures Prepend(a, Prepend(b, r)) == Prepend(a + b, r)
  {
    if r.Some? {
      assert a + (b + r.value) == (a + b) + r.value;
    }
  }

  lemma CollectFirst(read: Reader, entries: seq<Entry>)
    requires forall e :: e in entries ==> |read(e.name)| >= 1
    requires entries != [] && |entries[0].name| < NAME_SIZE
    requires read(entries[0].name)[0].usable || !entries[0].required
    ensures Collect(read, entries)
         == Prepend(if read(entries[0].name)[0].usable then read(entries[0].name) else [],
                    Collect(read, entries[1..]))
  {
  }

  lemma VisitedFirst(read: Reader, names: seq<string>, entries: seq<Entry>)
    requires forall e :: e in entries ==> |read(e.name)| >= 1
    requires entries != [] && |entries[0].name| < NAME_SIZE
    ensures NamesAfter(read, names, entries)
         == if read(entries[0].name)[0].usable || !entries[0].required
            then NamesAfter(read, Touch(names, entries[0].name), entries[1..])
            else Touch(names, entries[0].name)
  {
  }

  lemma EntriesUnfold(s: string)
    requires s != ""
    ensures Entries(s) != [] && Entries(s)[0] == FirstEntry(s).0 && Entries(s)[1..] == Entries(FirstEntry(s).1)
    ensures |FirstEntry(s).1| < |s|
  {
  }

  // One round of the loop over names: null when the request must fail here.
  method AddEntry(cache: GridCache, result: GridArray, entry: Entry) returns (ok: bool)
    requires cache.Valid() && result.Valid()
    modifies cache, result, result.items
    ensures cache.Valid() && result.Valid()
    ensures result.items == old(result.items) || fresh(result.items)
    ensures |cache.read(entry.name)| >= 1
    ensures ok <==> |entry.name| < NAME_SIZE && (cache.read(entry.name)[0].usable || !entry.required)
    ensures cache.names == if |entry.name| < NAME_SIZE then Touch(old(cache.names), entry.name) else old(cache.names)
    ensures ok ==>
      result.contents == old(result.contents) + if cache.read(entry.name)[0].usable then cache.read(entry.name) else []
  {
    hide Loaded, Distinct;
    OpensNonempty(cache.read, entry.name);
    if |entry.name| >= NAME_SIZE {
      return false;
    }
    var merged := cache.Merge(entry.name, result);
    return merged || !entry.required;
  }

  // pj_gridlist_from_nadgrids
  method FromNadgrids(cache: GridCache, nadgrids: string) returns (list: GridArray?, gridCount: nat)
    requires cache.Valid()
    modifies cache
    ensures cache.Valid() && Reads(cache.read)
    ensures forall e :: e in Entries(nadgrids) ==> |cache.read(e.name)| >= 1
    ensures cache.names == NamesAfter(cache.read, old(cache.names), Entries(nadgrids))
    ensures list != null ==> fresh(list) && list.Valid() && list.items != null && gridCount == list.count
    ensures list != null <==>
      Collect(cache.read, Entries(nadgrids)).Some? && Collect(cache.read, Entries(nadgrids)).value != []
    ensures list != null ==> list.contents == Collect(cache.read, Entries(nadgrids)).value
    ensures forall l: seq<Entry> :: NoCommas(l) && Readable(l) && nadgrids == Text(l) ==>
      var blocked := exists e :: e in l && Blocks(cache.read, e);
      && (list == null <==> blocked || Chains(cache.read, l) == [])
      && (list != null ==> list.contents == Chains(cache.read, l))
  {
    forall l: seq<Entry> | NoCommas(l) && Readable(l) && nadgrids == Text(l)
      ensures Entries(nadgrids) == l
    {
      TextEntries(l);
    }
    list, gridCount := Collected(cache, nadgrids);
    CollectExact(cache.read, Entries(nadgrids));
  }

  // The loop over the names.
  method Collected(cache: GridCache, nadgrids: string) returns (list: GridArray?, gridCount: nat)
    requires cache.Valid()
    modifies cache
    ensures cache.Valid() && Reads(cache.read)
    ensures forall e :: e in Entries(nadgrids) ==> |cache.read(e.name)| >= 1
    ensures cache.names == NamesAfter(cache.read, old(cache.names), Entries(nadgrids))
    ensures list != null ==> fresh(list) && list.Valid() && list.items != null && gridCount == list.count
    ensures list != null <==>
      Collect(cache.read, Entries(nadgrids)).Some? && Collect(cache.read, Entries(nadgrids)).value != []
    ensures list != null ==> list.contents == Collect(cache.read, Entries(nadgrids)).value
  {
    hide Collect, NamesAfter, Entries, FirstEntry, Loaded, Distinct, Touch;
    var read := cache.read;
    ReadsNonempty(read, Entries(nadgrids));
    var result := new GridArray();
    var s := nadgrids;
    gridCount := 0;
    PrependEmpty(Collect(read, Entries(s)));
    while s != ""
      invariant cache.Valid() && result.Valid() && fresh(result)
      invariant result.items != null ==> fresh(result.items)
      invariant gridCount == result.count
      invariant forall e :: e in Entries(s) ==> |read(e.name)| >= 1
      invariant NamesAfter(read, old(cache.names), Entries(nadgrids)) == NamesAfter(read, cache.names, Entries(s))
      invariant Collect(read, Entries(nadgrids)) == Prepend(result.contents, Collect(read, Entries(s)))
      decreases |s|
    {
      EntriesUnfold(s);
      var first, rest := FirstEntry(s).0, FirstEntry(s).1;
      ghost var before, names := result.contents, cache.names;
      var ok := AddEntry(cache, result, first);
      gridCount := result.count;
      if !ok {
        RequestFails(read, names, Entries(s));
        return null, gridCount;
      }
      ghost var chain := if read(first.name)[0].usable then read(first.name) else [];
      VisitedFirst(read, names, Entries(s));
      CollectFirst(read, Entries(s));
      PrependTwice(before, chain, Collect(read, Entries(rest)));
      s := rest;
    }
    RequestEnds(read, cache.names);
    if result.items == null {
      return null, gridCount;
    }
    return result, gridCount;
  }

  lemma RequestFails(read: Reader, names: seq<string>, entries: seq<Entry>)
    requires forall e :: e in entries ==> |read(e.name)| >= 1
    requires entries != []
    requires !(|entries[0].name| < NAME_SIZE && (read(entries[0].name)[0].usable || !entries[0].required))
    ensures Collect(read, entries) == None
    ensures NamesAfter(read, names, entries)
         == if |entries[0].name| < NAME_SIZE then Touch(names, entries[0].name) else names
  {
  }

  lemma RequestEnds(read: Reader, names: seq<string>)
    ensures Entries("") == []
    ensures Collect(read, []) == Some([]) && NamesAfter(read, names, []) == names
  {
  }

  lemma ReadsNonempty(read: Reader, entries: seq<Entry>)
    requires Reads(read)
    ensures forall e :: e in entries ==> |read(e.name)| >= 1
  {
    forall e | e in entries
      ensures |read(e.name)| >= 1
    {
      assert Opens(read(e.name), e.name);
    }
  }
}
