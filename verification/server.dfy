/** The server's state in place: the shared store of record objects with its
    id counter, and one connection's handler with its admin flag. Each
    method is proved to do what the corresponding function of module
    Protocol says. */
module Server {
  import opened Wrappers
  import opened Text
  import opened CollectionPoints
  import opened Protocol

  /** The current values of a map of record objects. */
  function Values(m: map<int, CollectionPoint>): map<int, Point>
    reads m.Values
  {
    map k | k in m :: m[k].Value()
  }

  lemma ValuesPut(m: map<int, CollectionPoint>, id: int, p: CollectionPoint)
    ensures Values(m[id := p]) == Values(m)[id := p.Value()]
  {
    var a, b := Values(m[id := p]), Values(m)[id := p.Value()];
    assert forall k :: k in a <==> k in b;
    assert forall k :: k in a ==> a[k] == b[k];
  }

  /** No object is stored under two keys. */
  ghost predicate Unaliased(m: map<int, CollectionPoint>)
  {
    forall j, k :: j in m && k in m && j != k ==> m[j] != m[k]
  }

  lemma UnaliasedPut(m: map<int, CollectionPoint>, id: int, p: CollectionPoint)
    requires Unaliased(m) && id !in m && forall k :: k in m ==> m[k] != p
    ensures Unaliased(m[id := p])
  {
  }

  /** Adding a record whose value is already known. */
  lemma AddPointIs(r: Registry, v: Point, name: string, address: string, categories: seq<string>, contact: string)
    requires Protocol.Valid(r)
    requires v == MakePoint(r.nextId, name, address, categories, contact)
    ensures AddPoint(r, name, address, categories, contact) == Registry(r.points[r.nextId := v], r.nextId + 1)
  {
  }

  /** A successful UPDATE, once the id has been parsed and found. */
  lemma UpdateSucceeds(r: Registry, admin: bool, parts: seq<string>, id: int)
    requires Protocol.Valid(r) && admin && |parts| >= 6
    requires ParseInt(Trim(parts[1])) == Some(id) && id in r.points
    ensures UpdateStep(r, admin, parts)
      == Reply(UpdatePoint(r, id, parts[2], parts[3], ParseCategories(parts[4]), parts[5]), admin, ["UPDATE_OK", End], false)
  {
  }

  /** Updating a record whose new value is already known. */
  lemma UpdatePointIs(r: Registry, id: int, v: Point, name: string, address: string, categories: seq<string>, contact: string)
    requires Protocol.Valid(r) && id in r.points
    requires v == MakePoint(id, name, address, categories, contact)
    ensures UpdatePoint(r, id, name, address, categories, contact) == Registry(r.points[id := v], r.nextId)
  {
  }

  /** The four setters, applied in turn to a record with this id, give the
      record the constructor would build. */
  lemma SettersMake(v: Point, id: int, name: string, address: string, categories: seq<string>, contact: string)
    requires v.id == id
    ensures v.(name := Safe(name)).(address := Safe(address)).(categories := NormalizeCategories(categories)).(contact := Safe(contact))
      == MakePoint(id, name, address, categories, contact)
  {
  }

  /** When every object but the one under id shows its former value, the
      values are the former ones with that one entry replaced. */
  lemma ValuesAfterUpdate(m: map<int, CollectionPoint>, before: map<int, Point>, id: int)
    requires id in m && m.Keys == before.Keys
    requires forall k :: k in m && k != id ==> m[k].Value() == before[k]
    ensures Values(m) == before[id := m[id].Value()]
  {
    var a, b := Values(m), before[id := m[id].Value()];
    assert forall k :: k in a <==> k in b;
    assert forall k :: k in a ==> a[k] == b[k];
  }

  /** A session's outcome with earlier response lines put in front. */
  function Prefixed(earlier: seq<string>, rest: Reply): Reply
  {
    Reply(rest.registry, rest.isAdmin, earlier + rest.lines, rest.quit)
  }

  /** A session over a non-empty input: its first step, then the rest
      unless the first step ended it. */
  lemma RunCons(r: Registry, admin: bool, rest: seq<string>, line: string, tail: seq<string>)
    requires Protocol.Valid(r) && |rest| > 0 && rest[0] == line && rest[1..] == tail
    ensures var first := Step(r, admin, line);
      Run(r, admin, rest) == if first.quit then first else Prefixed(first.lines, Run(first.registry, first.isAdmin, tail))
  {
  }

  /** How the session outcome advances over one line of the input. */
  lemma RunStep(total: Reply, out: seq<string>, r: Registry, admin: bool, lines: seq<string>, i: nat, first: Reply)
    requires Protocol.Valid(r) && i < |lines|
    requires total == Prefixed(out, Run(r, admin, lines[i..]))
    requires first == Step(r, admin, lines[i])
    ensures first.quit ==> total == Reply(first.registry, first.isAdmin, out + first.lines, true)
    ensures !first.quit ==> total == Prefixed(out + first.lines, Run(first.registry, first.isAdmin, lines[i + 1..]))
  {
    RunCons(r, admin, lines[i..], lines[i], lines[i + 1..]);
    if !first.quit {
      var rest := Run(first.registry, first.isAdmin, lines[i + 1..]);
      assert Run(r, admin, lines[i..]) == Prefixed(first.lines, rest);
      assert out + (first.lines + rest.lines) == (out + first.lines) + rest.lines;
    }
  }

  /** The server's `pontos` map and `nextId` counter. */
  class Store {
    var points: map<int, CollectionPoint>
    var nextId: int

    /** The records' current values, keyed by id. */
    function Abstract(): Registry
      reads this, points.Values
    {
      Registry(Values(points), nextId)
    }

    /** The registry invariant holds of the values, and no object is stored
        under two ids, so changing one record changes no other. */
    ghost predicate Valid()
      reads this, points.Values
    {
      Protocol.Valid(Abstract()) && Unaliased(points)
    }

    /** A fresh server: no records, counter at 1. */
    constructor ()
      ensures Valid()
      ensures Abstract() == Empty
    {
      points := map[];
      nextId := 1;
    }

    /** `addPontoInterno`: take the counter's value as the id, advance the
        counter, and store a new record object under that id. */
    method AddInternal(name: string, address: string, categories: seq<string>, contact: string)
      requires Valid()
      modifies this
      ensures Valid()
      ensures Abstract() == AddPoint(old(Abstract()), name, address, categories, contact)
      ensures forall o :: o in points.Values ==> o in old(points.Values) || fresh(o)
    {
      ghost var r0 := Abstract();
      var id := nextId;
      assert id == r0.nextId;
      var p := new CollectionPoint(id, name, address, categories, contact);
      ghost var v := p.Value();
      AddPointIs(r0, v, name, address, categories, contact);
      ghost var m := points;
      assert Values(m) == r0.points;
      assert id !in m by {
        assert id !in r0.points;
      }
      assert forall k :: k in m ==> m[k] != p;
      UnaliasedPut(m, id, p);
      nextId := nextId + 1;
      points := points[id := p];
      ValuesPut(m, id, p);
      assert p.Value() == v;
      assert Values(points) == r0.points[id := v];
      assert Abstract() == AddPoint(r0, name, address, categories, contact);
    }
  }

  lemma EncodeAllSnoc(ps: seq<Point>, i: nat)
    requires i < |ps|
    ensures EncodeAll(ps[..i + 1]) == EncodeAll(ps[..i]) + [Encode(ps[i])]
  {
  }

  /** One more record visited by the LIST loop. */
  lemma ListStep(ps: seq<Point>, i: nat, out: seq<string>)
    requires i < |ps| && out == [Ok] + EncodeAll(ps[..i])
    ensures out + [Encode(ps[i])] == [Ok] + EncodeAll(ps[..i + 1])
  {
    EncodeAllSnoc(ps, i);
  }

  lemma MatchingSnoc(ps: seq<Point>, i: nat, tipo: string)
    requires i < |ps|
    ensures Matching(ps[..i + 1], tipo)
      == if AcceptsType(ps[i], Some(tipo)) then Matching(ps[..i], tipo) + [ps[i]] else Matching(ps[..i], tipo)
  {
    var q := ps[..i + 1];
    assert q[..|q| - 1] == ps[..i] && q[|q| - 1] == ps[i];
  }

  /** One more record visited by the FILTER loop: its line is added exactly
      when it accepts the category. */
  lemma FilterStep(ps: seq<Point>, i: nat, tipo: string, out: seq<string>)
    requires i < |ps| && out == [Ok] + EncodeAll(Matching(ps[..i], tipo))
    ensures AcceptsType(ps[i], Some(tipo)) ==> out + [Encode(ps[i])] == [Ok] + EncodeAll(Matching(ps[..i + 1], tipo))
    ensures !AcceptsType(ps[i], Some(tipo)) ==> out == [Ok] + EncodeAll(Matching(ps[..i + 1], tipo))
  {
    MatchingSnoc(ps, i, tipo);
    if AcceptsType(ps[i], Some(tipo)) {
      EncodeAllAppend(Matching(ps[..i], tipo), ps[i]);
    }
  }

  lemma EncodeAllAppend(ps: seq<Point>, p: Point)
    ensures EncodeAll(ps + [p]) == EncodeAll(ps) + [Encode(p)]
  {
  }

  lemma DistinctSnoc(raw: seq<string>, i: nat)
    requires i < |raw|
    ensures var d := Distinct(Keys(raw[..i]));
      var c := CategoryKey(raw[i]);
      Distinct(Keys(raw[..i + 1])) == if c == "" || c in d then d else d + [c]
  {
    KeysSnoc(raw[..i + 1]);
    assert raw[..i + 1][..i] == raw[..i];
  }

  /** One more piece visited by the `parseTipos` loop: its key is added
      unless empty or already present. */
  lemma ParseStep(raw: seq<string>, i: nat, cats: seq<string>, norm: string)
    requires i < |raw| && cats == Distinct(Keys(raw[..i])) && norm == CategoryKey(raw[i])
    ensures Distinct(Keys(raw[..i + 1])) == if norm == "" || norm in cats then cats else cats + [norm]
  {
    DistinctSnoc(raw, i);
  }

  /** One connection: the shared store and the session's admin flag. The
      socket's lines are the methods' arguments and results. */
  class ClientHandler {
    const store: Store
    var isAdmin: bool

    ghost predicate Valid()
      reads this, store, store.points.Values
    {
      store.Valid()
    }

    /** A new connection starts without admin rights. */
    constructor (store: Store)
      requires store.Valid()
      ensures this.store == store && !isAdmin
      ensures Valid()
    {
      this.store := store;
      isAdmin := false;
    }

    /** `parseTipos`: a blank field gives no categories; otherwise each
        comma-separated piece is trimmed and lower-cased, and added to the
        insertion-ordered set unless empty. */
    method ParseTipos(s: string) returns (cats: seq<string>)
      ensures cats == ParseCategories(s)
    {
      if Trim(s) == "" {
        return [];
      }
      var arr := Split(s, ',');
      cats := [];
      var i := 0;
      while i < |arr|
        invariant 0 <= i <= |arr|
        invariant cats == Distinct(Keys(arr[..i]))
      {
        var norm := Lower(Trim(arr[i]));
        ParseStep(arr, i, cats, norm);
        if norm != "" && norm !in cats {
          cats := cats + [norm];
        }
        i := i + 1;
      }
      assert arr[..i] == arr;
      assert cats == NormalizeCategories(arr);
    }

    /** `handleList`: OK, every record's wire line in id order, END. */
    method HandleList() returns (out: seq<string>)
      requires Valid()
      ensures out == ListReply(store.Abstract())
    {
      ghost var ps := Listing(store.Abstract());
      out := [Ok];
      var i := 0;
      while i < store.nextId - 1
        invariant 0 <= i <= store.nextId - 1
        invariant out == [Ok] + EncodeAll(ps[..i])
      {
        assert i + 1 in store.Abstract().points;
        var v := store.points[i + 1].Value();
        assert v == ps[i];
        ListStep(ps, i, out);
        out := out + [Encode(v)];
        i := i + 1;
      }
      assert ps[..i] == ps;
      out := out + [End];
    }

    /** `handleFilter`: a missing or blank category is an error; otherwise
        OK, the wire line of every record accepting the trimmed, lower-cased
        category in id order, END. */
    method HandleFilter(parts: seq<string>) returns (out: seq<string>)
      requires Valid()
      ensures out == FilterReply(store.Abstract(), parts)
    {
      if |parts| < 2 || Trim(parts[1]) == "" {
        return [ErrMissingType, End];
      }
      var tipo := Lower(Trim(parts[1]));
      ghost var ps := Listing(store.Abstract());
      out := [Ok];
      var i := 0;
      while i < store.nextId - 1
        invariant 0 <= i <= store.nextId - 1
        invariant out == [Ok] + EncodeAll(Matching(ps[..i], tipo))
      {
        assert i + 1 in store.Abstract().points;
        var v := store.points[i + 1].Value();
        assert v == ps[i];
        FilterStep(ps, i, tipo, out);
        if AcceptsType(v, Some(tipo)) {
          out := out + [Encode(v)];
        }
        i := i + 1;
      }
      assert ps[..i] == ps;
      out := out + [End];
    }

    /** `handleLogin`: too few fields is an error; the administrator's
        user and password set the session's flag. */
    method HandleLogin(parts: seq<string>) returns (out: seq<string>)
      requires Valid()
      modifies this
      ensures Reply(store.Abstract(), isAdmin, out, false) == LoginStep(store.Abstract(), old(isAdmin), parts)
    {
      if |parts| < 3 {
        return [ErrLoginFormat, End];
      }
      var user := parts[1];
      var pass := parts[2];
      if user == AdminUser && pass == AdminPass {
        isAdmin := true;
        out := ["AUTH_OK"];
      } else {
        out := ["AUTH_FAIL"];
      }
      out := out + [End];
    }

    /** `handleAdd`: admin only, then at least five fields; the record is
        stored under the counter's value, which the reply names. */
    method HandleAdd(parts: seq<string>) returns (out: seq<string>)
      requires Valid()
      modifies store
      ensures Valid()
      ensures Reply(store.Abstract(), isAdmin, out, false) == AddStep(old(store.Abstract()), isAdmin, parts)
      ensures forall o :: o in store.points.Values ==> o in old(store.points.Values) || fresh(o)
    {
      if !isAdmin {
        return [ErrNotAdmin, End];
      }
      if |parts| < 5 {
        return [ErrAddFormat, End];
      }
      var tipos := ParseTipos(parts[3]);
      var id := store.nextId;
      store.AddInternal(parts[1], parts[2], tipos, parts[4]);
      out := ["ADD_OK|" + IntToString(id), End];
    }

    /** `handleUpdate`: admin only, then at least six fields, then an int id
        (after trimming), then a stored record; its four fields are
        overwritten through the setters. */
    method HandleUpdate(parts: seq<string>) returns (out: seq<string>)
      requires Valid()
      modifies store.points.Values
      ensures Valid()
      ensures Reply(store.Abstract(), isAdmin, out, false) == UpdateStep(old(store.Abstract()), isAdmin, parts)
    {
      ghost var r0 := store.Abstract();
      if !isAdmin {
        return [ErrNotAdmin, End];
      }
      if |parts| < 6 {
        return [ErrUpdateFormat, End];
      }
      var parsed := ParseInt(Trim(parts[1]));
      if parsed.None? {
        return [ErrInvalidId, End];
      }
      var id := parsed.value;
      assert id in store.points <==> id in r0.points;
      if id !in store.points {
        return [ErrNotFound(id), End];
      }
      Overwrite(id, parts[2], parts[3], parts[4], parts[5]);
      UpdateSucceeds(r0, isAdmin, parts, id);
      out := ["UPDATE_OK", End];
    }

    /** The four setter calls `handleUpdate` makes on the record stored
        under id, with the category field parsed between the second and the
        third. */
    method Overwrite(id: int, name: string, address: string, tiposStr: string, contact: string)
      requires Valid() && id in store.points
      modifies store.points[id]
      ensures Valid()
      ensures store.Abstract() == UpdatePoint(old(store.Abstract()), id, name, address, ParseCategories(tiposStr), contact)
    {
      ghost var r0 := store.Abstract();
      var existing := store.points[id];
      ghost var v0 := existing.Value();
      assert v0 == r0.points[id];
      existing.SetName(name);
      existing.SetAddress(address);
      var tipos := ParseTipos(tiposStr);
      existing.SetCategories(tipos);
      existing.SetContact(contact);
      ghost var v := existing.Value();
      SettersMake(v0, id, name, address, tipos, contact);
      forall k | k in store.points && k != id
        ensures store.points[k].Value() == r0.points[k]
      {
        assert store.points[k] != existing;
      }
      ValuesAfterUpdate(store.points, r0.points, id);
      UpdatePointIs(r0, id, v, name, address, tipos, contact);
    }

    /** One pass of `run`'s loop: the line is trimmed, a blank line is
        skipped, anything else is split on pipes keeping empty fields and
        dispatched on its trimmed, upper-cased first field. */
    method HandleLine(line: string) returns (out: seq<string>, quit: bool)
      requires Valid()
      modifies this, store, store.points.Values
      ensures Valid()
      ensures Reply(store.Abstract(), isAdmin, out, quit) == Step(old(store.Abstract()), old(isAdmin), line)
      ensures forall o :: o in store.points.Values ==> o in old(store.points.Values) || fresh(o)
    {
      var trimmed := Trim(line);
      if trimmed == "" {
        return [], false;
      }
      var parts := Split(trimmed, '|');
      var cmd := Upper(Trim(parts[0]));
      out, quit := HandleCommand(cmd, parts);
    }

    /** The `switch` of `run`'s loop on the command word. EXIT answers and
        ends the session; an unknown word is answered with an error. */
    method HandleCommand(cmd: string, parts: seq<string>) returns (out: seq<string>, quit: bool)
      requires Valid()
      modifies this, store, store.points.Values
      ensures Valid()
      ensures Reply(store.Abstract(), isAdmin, out, quit) == Dispatch(old(store.Abstract()), old(isAdmin), cmd, parts)
      ensures forall o :: o in store.points.Values ==> o in old(store.points.Values) || fresh(o)
    {
      quit := false;
      if cmd == "LIST" {
        out := HandleList();
      } else if cmd == "FILTER" {
        out := HandleFilter(parts);
      } else if cmd == "LOGIN" {
        out := HandleLogin(parts);
      } else if cmd == "ADD" {
        out := HandleAdd(parts);
      } else if cmd == "UPDATE" {
        out := HandleUpdate(parts);
      } else if cmd == "EXIT" {
        out := ["OK|Bye", End];
        quit := true;
      } else {
        out := [ErrUnknownCommand(cmd), End];
      }
    }

    /** `run`'s loop over the lines the client sends, until EXIT or the end
        of the input. */
    method Serve(lines: seq<string>) returns (out: seq<string>, quit: bool)
      requires Valid()
      modifies this, store, store.points.Values
      ensures Valid()
      ensures Reply(store.Abstract(), isAdmin, out, quit) == Run(old(store.Abstract()), old(isAdmin), lines)
    {
      ghost var total := Run(store.Abstract(), isAdmin, lines);
      assert lines[0..] == lines;
      out, quit := [], false;
      var i := 0;
      while i < |lines| && !quit
        invariant 0 <= i <= |lines|
        invariant Valid()
        invariant forall o :: o in store.points.Values ==> o in old(store.points.Values) || fresh(o)
        invariant quit ==> total == Reply(store.Abstract(), isAdmin, out, true)
        invariant !quit ==> total == Prefixed(out, Run(store.Abstract(), isAdmin, lines[i..]))
        decreases |lines| - i
      {
        ghost var r := store.Abstract();
        ghost var admin := isAdmin;
        var more, q := HandleLine(lines[i]);
        ghost var first := Reply(store.Abstract(), isAdmin, more, q);
        RunStep(total, out, r, admin, lines, i, first);
        out, quit := out + more, q;
        i := i + 1;
      }
    }
  }
}
