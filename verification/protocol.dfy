/** The server's behaviour as values: the in-memory store (a map from id to
    record plus the id counter), the category-list parser used by ADD and
    UPDATE, and one step of a connection's command loop, as a function of the
    store, the connection's admin flag and the input line. The classes in
    module Server implement these functions in place. */
module Protocol {
  import opened Wrappers
  import opened Text
  import opened CollectionPoints

  /** The one fixed administrator credential pair. */
  const AdminUser: string := "admin"
  const AdminPass: string := "12345"

  const Ok: string := "OK"
  const End: string := "END"
  const ErrMissingType: string := "ERROR|Tipo para filtro ausente"
  const ErrLoginFormat: string := "ERROR|Formato LOGIN incorreto. Uso: LOGIN|usuario|senha"
  const ErrNotAdmin: string := "ERROR|Operação requer autenticação de administrador"
  const ErrAddFormat: string := "ERROR|Formato ADD incorreto. Uso: ADD|nome|endereco|tipo1,tipo2|contato"
  const ErrUpdateFormat: string := "ERROR|Formato UPDATE incorreto. Uso: UPDATE|id|nome|endereco|tipo1,tipo2|contato"
  const ErrInvalidId: string := "ERROR|ID inválido"

  function ErrNotFound(id: int): string
  {
    "ERROR|Ponto com ID " + IntToString(id) + " não encontrado"
  }

  function ErrUnknownCommand(cmd: string): string
  {
    "ERROR|Comando desconhecido: " + cmd
  }

  // ---- the store -----------------------------------------------------------

  /** The contents of `pontos` and the value of `nextId`. */
  datatype Registry = Registry(points: map<int, Point>, nextId: int)

  /** The store's invariant: ids are exactly 1 .. nextId - 1 (handed out in
      order, never removed), each record sits under its own id, and every
      record went through the constructor's sanitisation. */
  ghost predicate Valid(r: Registry)
  {
    && r.nextId >= 1
    && (forall k :: k in r.points <==> 1 <= k < r.nextId)
    && (forall k :: k in r.points ==> r.points[k].id == k && WellFormed(r.points[k]))
  }

  /** The store of a freshly started server: no records, counter at 1. */
  const Empty: Registry := Registry(map[], 1)

  lemma EmptyIsValid()
    ensures Valid(Empty)
  {
  }

  /** Putting a well-formed record with the counter's value as its id and
      advancing the counter keeps the invariant. */
  lemma AppendKeepsValid(r: Registry, p: Point)
    requires Valid(r) && WellFormed(p) && p.id == r.nextId
    ensures Valid(Registry(r.points[p.id := p], r.nextId + 1))
  {
  }

  /** Replacing a stored record by a well-formed one with the same id keeps
      the invariant. */
  lemma ReplaceKeepsValid(r: Registry, p: Point)
    requires Valid(r) && WellFormed(p) && p.id in r.points
    ensures Valid(Registry(r.points[p.id := p], r.nextId))
  {
  }

  /** Storing p under id leaves every other entry as it was. */
  lemma PutKeepsOthers(r: Registry, p: Point, id: int)
    ensures forall k :: k in r.points[id := p] <==> k in r.points || k == id
    ensures forall k :: k in r.points && k != id ==> r.points[id := p][k] == r.points[k]
  {
  }

  /** `addPontoInterno` (and the same three steps inlined in ADD): take the
      counter's value as the id, advance the counter, store a new record. */
  function AddPoint(r: Registry, name: string, address: string, categories: seq<string>, contact: string): (r': Registry)
    requires Valid(r)
    ensures Valid(r')
    ensures r'.nextId == r.nextId + 1
    ensures r'.points == r.points[r.nextId := MakePoint(r.nextId, name, address, categories, contact)]
  {
    var p := MakePoint(r.nextId, name, address, categories, contact);
    AppendKeepsValid(r, p);
    Registry(r.points[r.nextId := p], r.nextId + 1)
  }

  /** The counter's value is a fresh id, larger than every stored one, so an
      addition overwrites nothing and every earlier record stays as it was. */
  lemma AddPointIsFresh(r: Registry, name: string, address: string, categories: seq<string>, contact: string)
    requires Valid(r)
    ensures r.nextId !in r.points
    ensures forall k :: k in r.points ==> k < r.nextId
    ensures var r' := AddPoint(r, name, address, categories, contact);
      && r.nextId in r'.points && r'.points[r.nextId].id == r.nextId
      && forall k :: k in r.points ==> k in r'.points && r'.points[k] == r.points[k]
  {
    PutKeepsOthers(r, MakePoint(r.nextId, name, address, categories, contact), r.nextId);
  }

  /** The four setters applied to the record stored under id. */
  function UpdatePoint(r: Registry, id: int, name: string, address: string, categories: seq<string>, contact: string): (r': Registry)
    requires Valid(r) && id in r.points
    ensures Valid(r')
    ensures r'.nextId == r.nextId
    ensures r'.points == r.points[id := MakePoint(id, name, address, categories, contact)]
  {
    var p := MakePoint(id, name, address, categories, contact);
    ReplaceKeepsValid(r, p);
    Registry(r.points[id := p], r.nextId)
  }

  /** An update keeps the set of ids, the record's own id, and every other
      record. */
  lemma UpdatePointKeepsOthers(r: Registry, id: int, name: string, address: string, categories: seq<string>, contact: string)
    requires Valid(r) && id in r.points
    ensures var r' := UpdatePoint(r, id, name, address, categories, contact);
      && (forall k :: k in r'.points <==> k in r.points)
      && r'.points[id].id == r.points[id].id
      && forall k :: k in r.points && k != id ==> r'.points[k] == r.points[k]
  {
    PutKeepsOthers(r, MakePoint(id, name, address, categories, contact), id);
  }

  /** The records in the order LIST and FILTER visit them: ascending id. */
  function Listing(r: Registry): (ps: seq<Point>)
    requires Valid(r)
    ensures |ps| == r.nextId - 1
    ensures forall k :: k in r.points ==> ps[k - 1] == r.points[k]
  {
    seq(r.nextId - 1, i requires 0 <= i < r.nextId - 1 => r.points[i + 1])
  }

  /** LIST shows every stored record and nothing else. */
  lemma ListingIsStore(r: Registry)
    requires Valid(r)
    ensures forall p :: p in Listing(r) <==> p in r.points.Values
  {
    var ps := Listing(r);
    forall p | p in r.points.Values ensures p in ps {
      assert exists k :: k in r.points && r.points[k] == p;
      var k :| k in r.points && r.points[k] == p;
      assert ps[k - 1] == p;
    }
    forall p | p in ps ensures p in r.points.Values {
      var i :| 0 <= i < |ps| && ps[i] == p;
      assert i + 1 in r.points;
    }
  }

  function EncodeAll(ps: seq<Point>): (lines: seq<string>)
    ensures |lines| == |ps|
  {
    seq(|ps|, i requires 0 <= i < |ps| => Encode(ps[i]))
  }

  /** The records that accept the category tipo, in their original order. */
  function Matching(ps: seq<Point>, tipo: string): (ms: seq<Point>)
    ensures |ms| <= |ps|
    ensures forall p :: p in ms <==> p in ps && AcceptsType(p, Some(tipo))
    decreases |ps|
  {
    if |ps| == 0 then []
    else
      var init := ps[..|ps| - 1];
      var last := ps[|ps| - 1];
      assert ps == init + [last];
      var ms := Matching(init, tipo);
      if AcceptsType(last, Some(tipo)) then ms + [last] else ms
  }

  /** Filtering a concatenation filters each part: the kept records keep
      their input order and their multiplicity. */
  lemma {:induction false} MatchingAppend(a: seq<Point>, b: seq<Point>, tipo: string)
    ensures Matching(a + b, tipo) == Matching(a, tipo) + Matching(b, tipo)
    decreases |b|
  {
    if |b| == 0 {
      assert a + b == a;
    } else {
      var init := b[..|b| - 1];
      var last := b[|b| - 1];
      assert (a + b)[..|a + b| - 1] == a + init;
      assert (a + b)[|a + b| - 1] == last;
      MatchingAppend(a, init, tipo);
    }
  }

  /** One record is kept exactly when it accepts the category. */
  lemma MatchingSingleton(p: Point, tipo: string)
    ensures Matching([p], tipo) == if AcceptsType(p, Some(tipo)) then [p] else []
  {
    assert [p][..0] == [];
  }

  // ---- the category-list parser ---------------------------------------------

  /** A character that lower-casing cannot produce from another one. */
  predicate NotLowerLetter(c: char) { !('a' <= c <= 'z') }

  lemma KeyAvoids(t: string, c: char)
    requires c !in t && NotLowerLetter(c)
    ensures c !in CategoryKey(t)
  {
    TrimAvoids(t, c);
    var s := Trim(t);
    var k := Lower(s);
    forall i | 0 <= i < |k| ensures k[i] != c {
      assert k[i] == LowerChar(s[i]) && s[i] != c;
    }
  }

  lemma NormalizeAvoids(raw: seq<string>, c: char)
    requires Avoids(raw, c) && NotLowerLetter(c)
    ensures Avoids(NormalizeCategories(raw), c)
  {
    var cats := NormalizeCategories(raw);
    var ks := Keys(raw);
    forall i | 0 <= i < |cats| ensures c !in cats[i] {
      assert cats[i] in ks;
      var j :| 0 <= j < |ks| && ks[j] == cats[i];
      KeyAvoids(raw[j], c);
    }
  }

  /** `parseTipos`: blank input gives no categories; otherwise split on
      commas keeping empty fields, trim and lower-case each, drop the empty
      ones and keep the first occurrence of each. */
  function ParseCategories(s: string): (cats: seq<string>)
    ensures Canonical(cats)
    ensures Avoids(cats, ',')
    ensures '|' !in s ==> Avoids(cats, '|')
  {
    if Trim(s) == "" then []
    else
      var pieces := Split(s, ',');
      NormalizeAvoids(pieces, ',');
      ParsedAvoids(s, '|');
      NormalizeCategories(pieces)
  }

  /** A character absent from the input and not a lower-case letter is
      absent from every parsed category. */
  lemma ParsedAvoids(s: string, c: char)
    requires NotLowerLetter(c)
    ensures c !in s ==> Avoids(NormalizeCategories(Split(s, ',')), c)
  {
    if c !in s {
      SplitAvoids(s, ',', c);
      NormalizeAvoids(Split(s, ','), c);
    }
  }

  lemma {:induction false} SplitKeepsWhite(s: string, sep: char)
    requires AllWhite(s)
    ensures forall i :: 0 <= i < |Split(s, sep)| ==> AllWhite(Split(s, sep)[i])
    decreases |s|
  {
    if |s| > 0 {
      SplitKeepsWhite(s[1..], sep);
    }
  }

  lemma {:induction false} DistinctOfBlanks(ks: seq<string>)
    requires forall i :: 0 <= i < |ks| ==> ks[i] == ""
    ensures Distinct(ks) == []
    decreases |ks|
  {
    if |ks| > 0 {
      DistinctOfBlanks(ks[..|ks| - 1]);
    }
  }

  /** The blank-input guard is redundant: a blank string splits into blank
      pieces, all of which are dropped. */
  lemma ParseCategoriesIsNormalize(s: string)
    ensures ParseCategories(s) == NormalizeCategories(Split(s, ','))
  {
    TrimEmpty(s);
    if Trim(s) == "" {
      var pieces := Split(s, ',');
      SplitKeepsWhite(s, ',');
      forall i | 0 <= i < |pieces| ensures CategoryKey(pieces[i]) == "" {
        TrimEmpty(pieces[i]);
      }
      DistinctOfBlanks(Keys(pieces));
    }
  }

  /** Joining the parsed categories with commas and parsing again gives the
      same list. */
  lemma ParseCategoriesReparse(s: string)
    ensures ParseCategories(Join(ParseCategories(s), ',')) == ParseCategories(s)
  {
    var cats := ParseCategories(s);
    ParseCategoriesIsNormalize(Join(cats, ','));
    CategoriesRoundTrip(cats);
  }

  // ---- one step of the command loop ------------------------------------------

  /** What one input line leaves behind: the store, the admin flag, the
      response lines, and whether the loop ends. */
  datatype Reply = Reply(registry: Registry, isAdmin: bool, lines: seq<string>, quit: bool)

  /** The line's fields: trimmed, then split on pipes keeping empty fields. */
  function LineFields(line: string): seq<string>
  {
    Split(Trim(line), '|')
  }

  /** The command word: the first field, trimmed and upper-cased. */
  function CommandOf(line: string): string
  {
    Upper(Trim(LineFields(line)[0]))
  }

  /** The command word does not depend on the case in which it was typed:
      `list`, `List` and `LIST` are the same command. */
  lemma CommandOfIgnoresCase(line: string)
    ensures CommandOf(Lower(line)) == CommandOf(line)
    ensures CommandOf(Upper(line)) == CommandOf(line)
  {
    var first := Split(Trim(line), '|')[0];
    UpperOfLower(Trim(first));
    UpperIdempotent(Trim(first));
    LowerKeepsWhite();
    UpperKeepsWhite();
    CaseMapCommand(LowerChar, line);
    CaseMapCommand(UpperChar, line);
  }

  /** The command word of a line mapped by a case mapping is the mapped
      command field. */
  lemma CaseMapCommand(f: char -> char, line: string)
    requires KeepsWhite(f) && KeepsSeparator(f, '|')
    ensures Trim(LineFields(MapChars(f, line))[0]) == MapChars(f, Trim(LineFields(line)[0]))
  {
    TrimCommutes(f, line);
    SplitCommutes(f, Trim(line), '|');
    TrimCommutes(f, LineFields(line)[0]);
  }

  function ListReply(r: Registry): seq<string>
    requires Valid(r)
  {
    [Ok] + EncodeAll(Listing(r)) + [End]
  }

  function FilterReply(r: Registry, parts: seq<string>): seq<string>
    requires Valid(r)
  {
    if |parts| < 2 || Trim(parts[1]) == "" then [ErrMissingType, End]
    else [Ok] + EncodeAll(Matching(Listing(r), Lower(Trim(parts[1])))) + [End]
  }

  /** LOGIN: the argument count first, then the credentials. */
  function LoginStep(r: Registry, admin: bool, parts: seq<string>): Reply
  {
    if |parts| < 3 then Reply(r, admin, [ErrLoginFormat, End], false)
    else if parts[1] == AdminUser && parts[2] == AdminPass then Reply(r, true, ["AUTH_OK", End], false)
    else Reply(r, admin, ["AUTH_FAIL", End], false)
  }

  /** ADD: the admin flag first, then the argument count. */
  function AddStep(r: Registry, admin: bool, parts: seq<string>): Reply
    requires Valid(r)
  {
    if !admin then Reply(r, admin, [ErrNotAdmin, End], false)
    else if |parts| < 5 then Reply(r, admin, [ErrAddFormat, End], false)
    else
      var r' := AddPoint(r, parts[1], parts[2], ParseCategories(parts[3]), parts[4]);
      Reply(r', admin, ["ADD_OK|" + IntToString(r.nextId), End], false)
  }

  /** UPDATE: the admin flag, the argument count, the id's syntax, the id's
      presence, in that order. */
  function UpdateStep(r: Registry, admin: bool, parts: seq<string>): Reply
    requires Valid(r)
  {
    if !admin then Reply(r, admin, [ErrNotAdmin, End], false)
    else if |parts| < 6 then Reply(r, admin, [ErrUpdateFormat, End], false)
    else
      match ParseInt(Trim(parts[1]))
      case None => Reply(r, admin, [ErrInvalidId, End], false)
      case Some(id) =>
        if id !in r.points then Reply(r, admin, [ErrNotFound(id), End], false)
        else
          var r' := UpdatePoint(r, id, parts[2], parts[3], ParseCategories(parts[4]), parts[5]);
          Reply(r', admin, ["UPDATE_OK", End], false)
  }

  /** The `switch` on the command word, given the line's fields. */
  function Dispatch(r: Registry, admin: bool, cmd: string, parts: seq<string>): (out: Reply)
    requires Valid(r)
    ensures Valid(out.registry)
  {
    if cmd == "LIST" then Reply(r, admin, ListReply(r), false)
    else if cmd == "FILTER" then Reply(r, admin, FilterReply(r, parts), false)
    else if cmd == "LOGIN" then LoginStep(r, admin, parts)
    else if cmd == "ADD" then AddStep(r, admin, parts)
    else if cmd == "UPDATE" then UpdateStep(r, admin, parts)
    else if cmd == "EXIT" then Reply(r, admin, ["OK|Bye", End], true)
    else Reply(r, admin, [ErrUnknownCommand(cmd), End], false)
  }

  /** One pass of the command loop for one input line: blank lines are
      skipped, anything else is split and dispatched. */
  function Step(r: Registry, admin: bool, line: string): (out: Reply)
    requires Valid(r)
    ensures Valid(out.registry)
  {
    if Trim(line) == "" then Reply(r, admin, [], false)
    else Dispatch(r, admin, CommandOf(line), LineFields(line))
  }

  /** The command loop over the lines a client sends, up to and including
      EXIT or until the input ends. */
  function Run(r: Registry, admin: bool, lines: seq<string>): (out: Reply)
    requires Valid(r)
    ensures Valid(out.registry)
    decreases |lines|
  {
    if |lines| == 0 then Reply(r, admin, [], false)
    else
      var first := Step(r, admin, lines[0]);
      if first.quit then first
      else
        var rest := Run(first.registry, first.isAdmin, lines[1..]);
        Reply(rest.registry, rest.isAdmin, first.lines + rest.lines, rest.quit)
  }

  // ---- properties of one command -------------------------------------------

  /** LOGIN with the administrator's credentials, as fields. */
  predicate IsAdminLogin(cmd: string, parts: seq<string>)
  {
    cmd == "LOGIN" && |parts| >= 3 && parts[1] == AdminUser && parts[2] == AdminPass
  }

  /** The admin flag becomes true exactly on a correct LOGIN and is never
      reset; a failed or malformed LOGIN leaves it as it was. */
  lemma DispatchAdminFlag(r: Registry, admin: bool, cmd: string, parts: seq<string>)
    requires Valid(r)
    ensures Dispatch(r, admin, cmd, parts).isAdmin == (admin || IsAdminLogin(cmd, parts))
  {
  }

  /** Without admin no command changes the store. */
  lemma DispatchWithoutAdminKeepsStore(r: Registry, cmd: string, parts: seq<string>)
    requires Valid(r)
    ensures Dispatch(r, false, cmd, parts).registry == r
  {
  }

  /** Every command other than ADD and UPDATE leaves the store as it was. */
  lemma DispatchReadOnly(r: Registry, admin: bool, cmd: string, parts: seq<string>)
    requires Valid(r) && cmd != "ADD" && cmd != "UPDATE"
    ensures Dispatch(r, admin, cmd, parts).registry == r
  {
  }

  /** A command only ever adds the next id or rewrites one existing record:
      no id disappears, the counter never goes back, and a new id is the old
      counter, larger than every earlier id. */
  lemma DispatchIdsNeverReused(r: Registry, admin: bool, cmd: string, parts: seq<string>)
    requires Valid(r)
    ensures var r' := Dispatch(r, admin, cmd, parts).registry;
      && (forall k :: k in r.points ==> k in r'.points && k < r.nextId)
      && (forall k :: k in r'.points ==> k in r.points || k == r.nextId)
      && (r'.nextId == r.nextId || r'.nextId == r.nextId + 1)
  {
    if cmd == "ADD" {
      AddOutcomes(r, admin, parts);
    } else if cmd == "UPDATE" {
      UpdateOutcomes(r, admin, parts);
    } else {
      DispatchReadOnly(r, admin, cmd, parts);
    }
  }

  /** A response: at least one line, then END. */
  predicate Terminated(lines: seq<string>)
  {
    |lines| >= 2 && lines[|lines| - 1] == End
  }

  /** Every command's response ends with END. */
  lemma DispatchEndsWithEnd(r: Registry, admin: bool, cmd: string, parts: seq<string>)
    requires Valid(r)
    ensures Terminated(Dispatch(r, admin, cmd, parts).lines)
  {
    if cmd == "LIST" {
      ListContents(r, admin, parts);
    } else if cmd == "FILTER" {
      FilterContents(r, admin, parts);
    } else if cmd == "LOGIN" {
      LoginOutcomes(r, admin, parts);
    } else if cmd == "ADD" {
      AddOutcomes(r, admin, parts);
    } else if cmd == "UPDATE" {
      UpdateOutcomes(r, admin, parts);
    }
  }

  /** Only EXIT ends the loop; it answers OK|Bye and changes nothing. */
  lemma DispatchQuit(r: Registry, admin: bool, cmd: string, parts: seq<string>)
    requires Valid(r)
    ensures var out := Dispatch(r, admin, cmd, parts);
      && (out.quit <==> cmd == "EXIT")
      && (out.quit ==> out == Reply(r, admin, ["OK|Bye", End], true))
  {
  }

  /** An unknown command word is answered with an error naming it. */
  lemma DispatchUnknown(r: Registry, admin: bool, cmd: string, parts: seq<string>)
    requires Valid(r)
    requires cmd !in {"LIST", "FILTER", "LOGIN", "ADD", "UPDATE", "EXIT"}
    ensures Dispatch(r, admin, cmd, parts) == Reply(r, admin, [ErrUnknownCommand(cmd), End], false)
  {
  }

  /** LIST answers OK, one line per stored record in id order, END; it
      changes neither the store nor the session. */
  lemma ListContents(r: Registry, admin: bool, parts: seq<string>)
    requires Valid(r)
    ensures var out := Dispatch(r, admin, "LIST", parts);
      && out.registry == r && out.isAdmin == admin
      && |out.lines| == r.nextId + 1 && out.lines[0] == Ok && out.lines[r.nextId] == End
      && forall k :: k in r.points ==> out.lines[k] == Encode(r.points[k])
  {
  }

  /** FILTER with a missing or blank category is an error; otherwise it
      answers OK, then exactly the stored records whose categories hold the
      trimmed, lower-cased argument, then END, even when none matches. It
      changes neither the store nor the session. */
  lemma FilterContents(r: Registry, admin: bool, parts: seq<string>)
    requires Valid(r)
    ensures var out := Dispatch(r, admin, "FILTER", parts);
      && out.registry == r && out.isAdmin == admin
      && (|parts| < 2 || Trim(parts[1]) == "" ==> out.lines == [ErrMissingType, End])
      && (|parts| >= 2 && Trim(parts[1]) != "" ==>
            var ms := Matching(Listing(r), Lower(Trim(parts[1])));
            && out.lines == [Ok] + EncodeAll(ms) + [End]
            && forall p :: p in ms <==> p in r.points.Values && CategoryKey(parts[1]) in p.categories)
  {
    if |parts| >= 2 && Trim(parts[1]) != "" {
      KeyIdempotent(parts[1]);
      ListingIsStore(r);
    }
  }

  /** LOGIN: too few fields is a format error; the right pair answers
      AUTH_OK, any other pair AUTH_FAIL. The store never changes. */
  lemma LoginOutcomes(r: Registry, admin: bool, parts: seq<string>)
    requires Valid(r)
    ensures var out := Dispatch(r, admin, "LOGIN", parts);
      && out.registry == r && !out.quit
      && (|parts| < 3 ==> out.lines == [ErrLoginFormat, End] && out.isAdmin == admin)
      && (IsAdminLogin("LOGIN", parts) ==> out.lines == ["AUTH_OK", End] && out.isAdmin)
      && (|parts| >= 3 && !IsAdminLogin("LOGIN", parts) ==> out.lines == ["AUTH_FAIL", End] && out.isAdmin == admin)
  {
  }

  /** ADD: refused without admin even when its arguments are valid, refused
      with fewer than five fields, and otherwise adds exactly one record under
      the counter's value and answers with that id. */
  lemma AddOutcomes(r: Registry, admin: bool, parts: seq<string>)
    requires Valid(r)
    ensures var out := Dispatch(r, admin, "ADD", parts);
      && (!admin ==> out == Reply(r, admin, [ErrNotAdmin, End], false))
      && (admin && |parts| < 5 ==> out == Reply(r, admin, [ErrAddFormat, End], false))
      && (admin && |parts| >= 5 ==>
            && out.lines == ["ADD_OK|" + IntToString(r.nextId), End]
            && out.registry.points == r.points[r.nextId := MakePoint(r.nextId, parts[1], parts[2], ParseCategories(parts[3]), parts[4])]
            && out.registry.nextId == r.nextId + 1
            && out.isAdmin && !out.quit)
  {
  }

  /** UPDATE: each failed check answers with its error and changes nothing;
      success rewrites the four fields of that one record and keeps its id,
      every other record and the counter. */
  lemma UpdateOutcomes(r: Registry, admin: bool, parts: seq<string>)
    requires Valid(r)
    ensures var out := Dispatch(r, admin, "UPDATE", parts);
      && (!admin ==> out == Reply(r, admin, [ErrNotAdmin, End], false))
      && (admin && |parts| < 6 ==> out == Reply(r, admin, [ErrUpdateFormat, End], false))
      && (admin && |parts| >= 6 && ParseInt(Trim(parts[1])).None? ==>
            out == Reply(r, admin, [ErrInvalidId, End], false))
      && (admin && |parts| >= 6 && ParseInt(Trim(parts[1])).Some? ==>
            var id := ParseInt(Trim(parts[1])).value;
            && (id !in r.points ==> out == Reply(r, admin, [ErrNotFound(id), End], false))
            && (id in r.points ==>
                  && out.lines == ["UPDATE_OK", End]
                  && out.registry.points == r.points[id := MakePoint(id, parts[2], parts[3], ParseCategories(parts[4]), parts[5])]
                  && out.registry.nextId == r.nextId
                  && out.isAdmin && !out.quit))
  {
  }

  // ---- properties of a step ------------------------------------------------

  /** The line is a LOGIN with the administrator's credentials. */
  predicate GrantsAdmin(line: string)
  {
    Trim(line) != "" && IsAdminLogin(CommandOf(line), LineFields(line))
  }

  /** The admin flag becomes true exactly on a correct LOGIN line. */
  lemma StepAdminFlag(r: Registry, admin: bool, line: string)
    requires Valid(r)
    ensures Step(r, admin, line).isAdmin == (admin || GrantsAdmin(line))
  {
    if Trim(line) != "" {
      DispatchAdminFlag(r, admin, CommandOf(line), LineFields(line));
    }
  }

  /** A connection that is not admin cannot change the store, whatever it sends. */
  lemma StepWithoutAdminKeepsStore(r: Registry, line: string)
    requires Valid(r)
    ensures Step(r, false, line).registry == r
  {
    if Trim(line) != "" {
      DispatchWithoutAdminKeepsStore(r, CommandOf(line), LineFields(line));
    }
  }

  /** A blank line is skipped: no response, nothing changes. */
  lemma StepBlank(r: Registry, admin: bool, line: string)
    requires Valid(r) && Trim(line) == ""
    ensures Step(r, admin, line) == Reply(r, admin, [], false)
  {
  }

  /** Any other line gets a response whose last line is END. */
  lemma StepEndsWithEnd(r: Registry, admin: bool, line: string)
    requires Valid(r) && Trim(line) != ""
    ensures Terminated(Step(r, admin, line).lines)
  {
    DispatchEndsWithEnd(r, admin, CommandOf(line), LineFields(line));
  }

  /** Only an EXIT line ends the loop. */
  lemma StepQuit(r: Registry, admin: bool, line: string)
    requires Valid(r)
    ensures Step(r, admin, line).quit <==> Trim(line) != "" && CommandOf(line) == "EXIT"
  {
    if Trim(line) != "" {
      DispatchQuit(r, admin, CommandOf(line), LineFields(line));
    }
  }

  /** No step loses an id or moves the counter back. */
  lemma StepIdsNeverReused(r: Registry, admin: bool, line: string)
    requires Valid(r)
    ensures var r' := Step(r, admin, line).registry;
      && (forall k :: k in r.points ==> k in r'.points)
      && (forall k :: k in r'.points ==> k in r.points || k == r.nextId)
      && (r'.nextId == r.nextId || r'.nextId == r.nextId + 1)
  {
    if Trim(line) != "" {
      DispatchIdsNeverReused(r, admin, CommandOf(line), LineFields(line));
    }
  }

  // ---- records on the wire -------------------------------------------------

  /** Every stored category can travel inside a record line. */
  ghost predicate Clean(r: Registry)
  {
    forall k :: k in r.points ==> SeparatorFree(r.points[k].categories)
  }

  /** The categories a command stores come from a field without pipes,
      split on commas; so they hold neither separator. */
  lemma PutKeepsClean(r: Registry, p: Point, nextId: int)
    requires Clean(r) && SeparatorFree(p.categories)
    ensures Clean(Registry(r.points[p.id := p], nextId))
  {
  }

  lemma DispatchKeepsClean(r: Registry, admin: bool, cmd: string, parts: seq<string>)
    requires Valid(r) && Clean(r) && Avoids(parts, '|')
    ensures Clean(Dispatch(r, admin, cmd, parts).registry)
  {
    if admin && cmd == "ADD" && |parts| >= 5 {
      var cats := ParseCategories(parts[3]);
      NormalizeAvoids(cats, ',');
      NormalizeAvoids(cats, '|');
      AddOutcomes(r, admin, parts);
      PutKeepsClean(r, MakePoint(r.nextId, parts[1], parts[2], cats, parts[4]), r.nextId + 1);
    } else if admin && cmd == "UPDATE" && |parts| >= 6 && ParseInt(Trim(parts[1])).Some? && ParseInt(Trim(parts[1])).value in r.points {
      var id := ParseInt(Trim(parts[1])).value;
      var cats := ParseCategories(parts[4]);
      NormalizeAvoids(cats, ',');
      NormalizeAvoids(cats, '|');
      UpdateOutcomes(r, admin, parts);
      PutKeepsClean(r, MakePoint(id, parts[2], parts[3], cats, parts[5]), r.nextId);
    } else if cmd == "ADD" {
      AddOutcomes(r, admin, parts);
    } else if cmd == "UPDATE" {
      UpdateOutcomes(r, admin, parts);
    } else {
      DispatchReadOnly(r, admin, cmd, parts);
    }
  }

  lemma StepKeepsClean(r: Registry, admin: bool, line: string)
    requires Valid(r) && Clean(r)
    ensures Clean(Step(r, admin, line).registry)
  {
    if Trim(line) != "" {
      DispatchKeepsClean(r, admin, CommandOf(line), LineFields(line));
    }
  }

  /** Each record line of a LIST response decodes to the record it came from,
      provided every id is still an int. */
  lemma ListLinesDecode(r: Registry)
    requires Valid(r) && Clean(r) && r.nextId - 1 <= IntMax
    ensures var lines := ListReply(r);
      forall k :: k in r.points ==> Decode(lines[k]) == Success(r.points[k])
  {
    var lines := ListReply(r);
    forall k | k in r.points ensures Decode(lines[k]) == Success(r.points[k]) {
      assert lines[k] == Encode(r.points[k]);
      DecodeEncode(r.points[k]);
    }
  }

  // ---- properties of a session ---------------------------------------------

  /** A session that starts without admin and never sends the admin's
      credentials leaves the store exactly as it found it. */
  lemma {:induction false} RunWithoutLoginKeepsStore(r: Registry, lines: seq<string>)
    requires Valid(r)
    requires forall i :: 0 <= i < |lines| ==> !GrantsAdmin(lines[i])
    ensures Run(r, false, lines).registry == r && !Run(r, false, lines).isAdmin
    decreases |lines|
  {
    if |lines| > 0 {
      StepAdminFlag(r, false, lines[0]);
      StepWithoutAdminKeepsStore(r, lines[0]);
      RunWithoutLoginKeepsStore(r, lines[1..]);
    }
  }

  /** Once admin, a session stays admin to its end. */
  lemma {:induction false} RunKeepsAdmin(r: Registry, lines: seq<string>)
    requires Valid(r)
    ensures Run(r, true, lines).isAdmin
    decreases |lines|
  {
    if |lines| > 0 {
      StepAdminFlag(r, true, lines[0]);
      RunKeepsAdmin(Step(r, true, lines[0]).registry, lines[1..]);
    }
  }

  /** Over a whole session no id is lost and the counter only grows. */
  lemma {:induction false} RunIdsNeverReused(r: Registry, admin: bool, lines: seq<string>)
    requires Valid(r)
    ensures forall k :: k in r.points ==> k in Run(r, admin, lines).registry.points
    ensures r.nextId <= Run(r, admin, lines).registry.nextId
    decreases |lines|
  {
    if |lines| > 0 {
      StepIdsNeverReused(r, admin, lines[0]);
      var first := Step(r, admin, lines[0]);
      RunIdsNeverReused(first.registry, first.isAdmin, lines[1..]);
    }
  }

  /** A store built only by sessions stays clean, so every LIST line it
      produces can be decoded. */
  lemma {:induction false} RunKeepsClean(r: Registry, admin: bool, lines: seq<string>)
    requires Valid(r) && Clean(r)
    ensures Clean(Run(r, admin, lines).registry)
    decreases |lines|
  {
    if |lines| > 0 {
      StepKeepsClean(r, admin, lines[0]);
      var first := Step(r, admin, lines[0]);
      RunKeepsClean(first.registry, first.isAdmin, lines[1..]);
    }
  }
}
