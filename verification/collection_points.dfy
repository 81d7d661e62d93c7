/** A collection point (PontoColeta): its field sanitisation, the category
    normaliser, the one-line wire codec `id|name|address|c1,c2|contact`, the
    case-insensitive category test, and the mutable record with its setters. */
module CollectionPoints {
  import opened Wrappers
  import opened Text

  /** The value of a record. Categories are kept as a list without
      duplicates, in insertion order, as a LinkedHashSet iterates them. */
  datatype Point = Point(id: int, name: string, address: string, categories: seq<string>, contact: string)

  // ---- text fields -----------------------------------------------------

  /** A text field that cannot break a protocol line. */
  predicate Sanitized(s: string)
  {
    '|' !in s && '\n' !in s && IsTrimmed(s)
  }

  lemma ReplaceAbsent(s: string, from: char, to: char)
    requires from !in s
    ensures Replace(s, from, to) == s
  {
  }

  /** `safe`: pipes become dashes, line feeds become spaces, then the result
      is trimmed. Its results are exactly the sanitised strings: every result
      is sanitised and every sanitised string is left as it is. */
  function Safe(s: string): (r: string)
    ensures Sanitized(r)
    ensures Sanitized(s) ==> r == s
  {
    SafeSanitizes(s);
    Trim(Replace(Replace(s, '|', '-'), '\n', ' '))
  }

  lemma SafeSanitizes(s: string)
    ensures Sanitized(Trim(Replace(Replace(s, '|', '-'), '\n', ' ')))
    ensures Sanitized(s) ==> Trim(Replace(Replace(s, '|', '-'), '\n', ' ')) == s
  {
    var replaced := Replace(Replace(s, '|', '-'), '\n', ' ');
    TrimAvoids(replaced, '|');
    TrimAvoids(replaced, '\n');
    if Sanitized(s) {
      ReplaceAbsent(s, '|', '-');
      ReplaceAbsent(s, '\n', ' ');
    }
  }

  lemma SafeIdempotent(s: string)
    ensures Safe(Safe(s)) == Safe(s)
  {
  }

  // ---- categories ------------------------------------------------------

  /** The canonical form of one category: trimmed, then lower-cased. */
  function CategoryKey(t: string): (k: string)
    ensures IsTrimmed(k) && NoUpper(k)
  {
    LowerKeepsTrimmed(Trim(t));
    LowerHasNoUpper(Trim(t));
    Lower(Trim(t))
  }

  predicate IsCategory(c: string)
  {
    c != "" && IsTrimmed(c) && NoUpper(c)
  }

  predicate NoDuplicates<T(==)>(s: seq<T>)
  {
    forall i, j :: 0 <= i < j < |s| ==> s[i] != s[j]
  }

  /** A normalised category list: every entry is a category and none repeats. */
  predicate Canonical(cats: seq<string>)
  {
    (forall i :: 0 <= i < |cats| ==> IsCategory(cats[i])) && NoDuplicates(cats)
  }

  /** The key of every raw entry, in order. */
  function Keys(raw: seq<string>): (ks: seq<string>)
  {
    seq(|raw|, i requires 0 <= i < |raw| => CategoryKey(raw[i]))
  }

  lemma KeysSnoc(raw: seq<string>)
    requires |raw| > 0
    ensures Keys(raw) == Keys(raw[..|raw| - 1]) + [CategoryKey(raw[|raw| - 1])]
  {
  }

  /** The non-empty entries of ks, each at its first occurrence. */
  function Distinct(ks: seq<string>): (d: seq<string>)
    ensures NoDuplicates(d)
    ensures forall c :: c in d <==> c != "" && c in ks
    decreases |ks|
  {
    if |ks| == 0 then []
    else
      var d := Distinct(ks[..|ks| - 1]);
      var c := ks[|ks| - 1];
      assert forall x :: x in ks <==> x in ks[..|ks| - 1] || x == c by {
        assert ks == ks[..|ks| - 1] + [c];
      }
      if c == "" || c in d then d else d + [c]
  }

  /** Every entry is already trimmed and lower-case. */
  predicate AllKeys(ks: seq<string>)
  {
    forall i :: 0 <= i < |ks| ==> IsTrimmed(ks[i]) && NoUpper(ks[i])
  }

  lemma DistinctOfKeys(ks: seq<string>)
    requires AllKeys(ks)
    ensures Canonical(Distinct(ks))
  {
    var d := Distinct(ks);
    forall i | 0 <= i < |d| ensures IsCategory(d[i]) {
      assert d[i] in ks;
      var j :| 0 <= j < |ks| && ks[j] == d[i];
    }
  }

  /** `normalizeTipos`: trim and lower-case each entry, drop the empty ones,
      and keep the first occurrence of each. The input order is the iteration
      order of the caller's set. */
  function NormalizeCategories(raw: seq<string>): (cats: seq<string>)
    ensures Canonical(cats)
    ensures forall c :: c in cats <==> c != "" && c in Keys(raw)
  {
    DistinctOfKeys(Keys(raw));
    Distinct(Keys(raw))
  }

  /** The position of the first occurrence of x. */
  function FirstIndex<T(==)>(s: seq<T>, x: T): (i: nat)
    requires x in s
    ensures i < |s| && s[i] == x
    ensures forall j :: 0 <= j < i ==> s[j] != x
    decreases |s|
  {
    if s[0] == x then 0 else 1 + FirstIndex(s[1..], x)
  }

  lemma {:induction false} FirstIndexSnoc<T>(s: seq<T>, y: T, x: T)
    requires x in s + [y]
    ensures x in s ==> FirstIndex(s + [y], x) == FirstIndex(s, x)
    ensures x !in s ==> FirstIndex(s + [y], x) == |s|
  {
    var i := FirstIndex(s + [y], x);
    if x in s {
      var k := FirstIndex(s, x);
      assert (s + [y])[k] == x;
      assert s[i] == x by { assert i <= k; }
    }
  }

  /** Every entry of d occurs in ks, and d lists them in the order in which
      they first occur in ks. */
  predicate InFirstOccurrenceOrder(d: seq<string>, ks: seq<string>)
  {
    (forall x :: x in d ==> x in ks) &&
    forall i, j :: 0 <= i < j < |d| ==> FirstIndex(ks, d[i]) < FirstIndex(ks, d[j])
  }

  /** Distinct lists its entries in order of first occurrence. */
  lemma {:induction false} DistinctKeepsFirstOccurrenceOrder(ks: seq<string>)
    ensures InFirstOccurrenceOrder(Distinct(ks), ks)
    decreases |ks|
  {
    if |ks| > 0 {
      var init := ks[..|ks| - 1];
      var c := ks[|ks| - 1];
      assert ks == init + [c];
      DistinctKeepsFirstOccurrenceOrder(init);
      var prev := Distinct(init);
      var d := Distinct(ks);
      forall k | 0 <= k < |prev|
        ensures FirstIndex(ks, prev[k]) == FirstIndex(init, prev[k])
      {
        FirstIndexSnoc(init, c, prev[k]);
      }
      assert d == prev || (d == prev + [c] && c !in init);
      forall i, j | 0 <= i < j < |d|
        ensures FirstIndex(ks, d[i]) < FirstIndex(ks, d[j])
      {
        assert d[i] == prev[i];
        if j < |prev| {
          assert d[j] == prev[j];
          assert FirstIndex(init, prev[i]) < FirstIndex(init, prev[j]);
        } else {
          assert d[j] == c;
          FirstIndexSnoc(init, c, c);
        }
      }
    }
  }

  /** The normalised list is in order of first occurrence in the input. */
  lemma NormalizeKeepsFirstOccurrenceOrder(raw: seq<string>)
    ensures InFirstOccurrenceOrder(NormalizeCategories(raw), Keys(raw))
  {
    DistinctKeepsFirstOccurrenceOrder(Keys(raw));
  }

  /** A list that is already canonical is its own normal form. */
  lemma {:induction false} DistinctOfCanonical(cats: seq<string>)
    requires Canonical(cats)
    ensures Distinct(cats) == cats
    decreases |cats|
  {
    if |cats| > 0 {
      var init := cats[..|cats| - 1];
      assert Canonical(init) by {
        assert forall i :: 0 <= i < |init| ==> init[i] == cats[i];
      }
      DistinctOfCanonical(init);
      var last := cats[|cats| - 1];
      assert last !in init by {
        forall i | 0 <= i < |init| ensures init[i] != last {
          assert init[i] == cats[i];
        }
      }
      assert init + [last] == cats;
    }
  }

  lemma NormalizeCanonical(cats: seq<string>)
    requires Canonical(cats)
    ensures NormalizeCategories(cats) == cats
  {
    assert Keys(cats) == cats by {
      forall i | 0 <= i < |cats| ensures Keys(cats)[i] == cats[i] {
        assert IsCategory(cats[i]);
      }
    }
    DistinctOfCanonical(cats);
  }

  /** Normalising twice is normalising once. */
  lemma NormalizeIdempotent(raw: seq<string>)
    ensures NormalizeCategories(NormalizeCategories(raw)) == NormalizeCategories(raw)
  {
    NormalizeCanonical(NormalizeCategories(raw));
  }

  // ---- the record value --------------------------------------------------

  /** What the constructor and the setters guarantee of a stored record. */
  predicate WellFormed(p: Point)
  {
    Sanitized(p.name) && Sanitized(p.address) && Sanitized(p.contact) && Canonical(p.categories)
  }

  /** The constructor `PontoColeta(id, nome, endereco, tipos, contato)`. */
  function MakePoint(id: int, name: string, address: string, categories: seq<string>, contact: string): (p: Point)
    ensures WellFormed(p)
    ensures p.id == id
  {
    Point(id, Safe(name), Safe(address), NormalizeCategories(categories), Safe(contact))
  }

  /** Rebuilding a well-formed record from its own fields changes nothing. */
  lemma MakePointOfWellFormed(p: Point)
    requires WellFormed(p)
    ensures MakePoint(p.id, p.name, p.address, p.categories, p.contact) == p
  {
    NormalizeCanonical(p.categories);
  }

  // ---- the wire codec ------------------------------------------------------

  /** `toProtocolString`: id|name|address|c1,c2|contact. */
  function Encode(p: Point): string
  {
    IntToString(p.id) + "|" + p.name + "|" + p.address + "|" + Join(p.categories, ',') + "|" + p.contact
  }

  /** The five fields of an encoded record, in order. */
  function Fields(p: Point): seq<string>
  {
    [IntToString(p.id), p.name, p.address, Join(p.categories, ','), p.contact]
  }

  /** Categories that can travel inside one field of a record line. */
  predicate SeparatorFree(cats: seq<string>)
  {
    Avoids(cats, ',') && Avoids(cats, '|')
  }

  /** An encoded record splits into exactly its five fields, in order, when no
      text field and no category holds a pipe. */
  lemma EncodeFields(p: Point)
    requires '|' !in p.name && '|' !in p.address && '|' !in p.contact && Avoids(p.categories, '|')
    ensures Split(Encode(p), '|') == Fields(p)
  {
    JoinAvoids(p.categories, ',', '|');
    JoinFields(p);
    SplitJoin(Fields(p), '|');
  }

  /** The encoding is the five fields joined with pipes. */
  lemma JoinFields(p: Point)
    ensures Join(Fields(p), '|') == Encode(p)
  {
    var f := Fields(p);
    var cats := f[3];
    assert Join(f[4..], '|') == p.contact;
    assert Join(f[3..], '|') == cats + "|" + p.contact;
    assert Join(f[2..], '|') == p.address + "|" + cats + "|" + p.contact;
    assert Join(f[1..], '|') == p.name + "|" + p.address + "|" + cats + "|" + p.contact;
  }

  datatype DecodeError = TooFewFields | InvalidId

  /** `fromProtocolString`: split on pipes keeping empty fields, demand five
      fields and an int in the first (not trimmed), rebuild the category list
      from the comma-separated fourth field, and pass everything through the
      constructor. Fields after the fifth are ignored. */
  function Decode(line: string): (r: Result<Point, DecodeError>)
    ensures r == Failure(TooFewFields) <==> |Split(line, '|')| < 5
    ensures r == Failure(InvalidId) <==> |Split(line, '|')| >= 5 && ParseInt(Split(line, '|')[0]).None?
    ensures r.Success? ==> WellFormed(r.value) && IsInt32(r.value.id)
  {
    DecodeFields(Split(line, '|'))
  }

  /** Decoding once the line has been split into its fields. */
  function DecodeFields(parts: seq<string>): (r: Result<Point, DecodeError>)
    ensures r == Failure(TooFewFields) <==> |parts| < 5
    ensures r == Failure(InvalidId) <==> |parts| >= 5 && ParseInt(parts[0]).None?
    ensures r.Success? ==> WellFormed(r.value) && IsInt32(r.value.id)
  {
    if |parts| < 5 then Failure(TooFewFields)
    else
      match ParseInt(parts[0])
      case None => Failure(InvalidId)
      case Some(id) =>
        // the source filters empty entries before lower-casing them; lower-casing
        // keeps the length, so this is the same list as trim-lower-filter
        var categories := NormalizeCategories(Split(parts[3], ','));
        Success(MakePoint(id, parts[1], parts[2], categories, parts[4]))
  }

  /** The comma-joined categories of a record come back unchanged. */
  lemma CategoriesRoundTrip(cats: seq<string>)
    requires Canonical(cats) && Avoids(cats, ',')
    ensures NormalizeCategories(Split(Join(cats, ','), ',')) == cats
  {
    if |cats| == 0 {
      assert Split("", ',') == [""];
      assert Keys([""]) == [""];
    } else {
      SplitJoin(cats, ',');
      NormalizeCanonical(cats);
    }
  }

  /** Decoding an encoded record gives the same record back, for an id in
      the int range and categories free of both separators. */
  lemma DecodeEncode(p: Point)
    requires WellFormed(p) && IsInt32(p.id) && SeparatorFree(p.categories)
    ensures Decode(Encode(p)) == Success(p)
  {
    EncodeFields(p);
    DecodeOwnFields(p);
  }

  /** Decoding five fields whose first is an int and whose fourth parses to
      the given categories. */
  lemma DecodeFieldsOf(id: string, name: string, address: string, categories: string, contact: string, n: int, cats: seq<string>)
    requires ParseInt(id) == Some(n)
    requires NormalizeCategories(Split(categories, ',')) == cats
    ensures DecodeFields([id, name, address, categories, contact]) == Success(MakePoint(n, name, address, cats, contact))
  {
  }

  lemma DecodeOwnFields(p: Point)
    requires WellFormed(p) && IsInt32(p.id) && SeparatorFree(p.categories)
    ensures DecodeFields(Fields(p)) == Success(p)
  {
    ParseIntToString(p.id);
    CategoriesRoundTrip(p.categories);
    DecodeFieldsOf(IntToString(p.id), p.name, p.address, Join(p.categories, ','), p.contact, p.id, p.categories);
    MakePointOfWellFormed(p);
  }

  // ---- category test -------------------------------------------------------

  /** `aceitaTipo`: null is never accepted; otherwise the trimmed,
      lower-cased argument must be one of the categories. */
  function AcceptsType(p: Point, t: Option<string>): (b: bool)
    ensures t == None ==> !b
  {
    t.Some? && CategoryKey(t.value) in p.categories
  }

  lemma UpperKeepsWhite()
    ensures KeepsWhite(UpperChar)
  {
  }

  lemma LowerKeepsWhite()
    ensures KeepsWhite(LowerChar)
  {
  }

  lemma KeyOfUpper(t: string)
    ensures CategoryKey(Upper(t)) == CategoryKey(t)
  {
    UpperKeepsWhite();
    TrimCommutes(UpperChar, t);
    assert Trim(Upper(t)) == Upper(Trim(t));
    LowerOfUpper(Trim(t));
  }

  lemma KeyOfLower(t: string)
    ensures CategoryKey(Lower(t)) == CategoryKey(t)
  {
    LowerKeepsWhite();
    TrimCommutes(LowerChar, t);
    assert Trim(Lower(t)) == Lower(Trim(t));
    LowerIdempotent(Trim(t));
  }

  lemma KeyIdempotent(t: string)
    ensures CategoryKey(CategoryKey(t)) == CategoryKey(t)
  {
    var k := CategoryKey(t);
    assert Trim(k) == k;
  }

  /** The category test ignores case and surrounding white space. */
  lemma AcceptsTypeIgnoresCase(p: Point, t: string)
    ensures AcceptsType(p, Some(Upper(t))) == AcceptsType(p, Some(t))
    ensures AcceptsType(p, Some(Lower(t))) == AcceptsType(p, Some(t))
    ensures AcceptsType(p, Some(CategoryKey(t))) == AcceptsType(p, Some(t))
  {
    KeyOfUpper(t);
    KeyOfLower(t);
    KeyIdempotent(t);
  }

  /** A well-formed record accepts each of its own categories. */
  lemma AcceptsOwnCategories(p: Point, i: nat)
    requires WellFormed(p) && i < |p.categories|
    ensures AcceptsType(p, Some(p.categories[i]))
  {
    assert CategoryKey(p.categories[i]) == p.categories[i];
  }

  // ---- the mutable record --------------------------------------------------

  /** A PontoColeta object: the id is final, the other four fields are
      overwritten by the setters. */
  class CollectionPoint {
    const id: int
    var name: string
    var address: string
    var categories: seq<string>
    var contact: string

    function Value(): Point
      reads this
    {
      Point(id, name, address, categories, contact)
    }

    ghost predicate Valid()
      reads this
    {
      WellFormed(Value())
    }

    constructor (id: int, name: string, address: string, categories: seq<string>, contact: string)
      ensures Value() == MakePoint(id, name, address, categories, contact)
      ensures Valid()
    {
      this.id := id;
      this.name := Safe(name);
      this.address := Safe(address);
      this.categories := NormalizeCategories(categories);
      this.contact := Safe(contact);
    }

    /** `setNome`: stores the sanitised name; nothing else changes. */
    method SetName(name: string)
      modifies this
      ensures Value() == old(Value()).(name := Safe(name))
      ensures old(Valid()) ==> Valid()
    {
      this.name := Safe(name);
    }

    /** `setEndereco`: stores the sanitised address; nothing else changes. */
    method SetAddress(address: string)
      modifies this
      ensures Value() == old(Value()).(address := Safe(address))
      ensures old(Valid()) ==> Valid()
    {
      this.address := Safe(address);
    }

    /** `setTipos`: stores the normalised categories; nothing else changes. */
    method SetCategories(categories: seq<string>)
      modifies this
      ensures Value() == old(Value()).(categories := NormalizeCategories(categories))
      ensures old(Valid()) ==> Valid()
    {
      this.categories := NormalizeCategories(categories);
    }

    /** `setContato`: stores the sanitised contact; nothing else changes. */
    method SetContact(contact: string)
      modifies this
      ensures Value() == old(Value()).(contact := Safe(contact))
      ensures old(Valid()) ==> Valid()
    {
      this.contact := Safe(contact);
    }
  }
}
