/**
  CompanyService (src/main/services/company.ts). `set` inserts every trimmed
  name inside one transaction with INSERT OR IGNORE, so a name longer than the
  CHECK allows is skipped while blank and repeated names are stored; `get` and
  `getOne` read the table, soft-deleted rows included; `remove` deletes nothing.
*/
module CompanyService {
  import opened Wrappers
  import opened Text
  import opened Sorting
  import opened Schema

  /** CompanyModel: an id (absent before insertion) and a name. */
  datatype CompanyModel = CompanyModel(id: Option<int>, name: string)

  function ModelOf(c: Company): CompanyModel {
    CompanyModel(Some(c.id), c.name)
  }

  // ---------------------------------------------------------------------------
  // set: the transaction, statement by statement.

  /** String.prototype.trim over every name of the list. */
  function TrimmedNames(list: seq<CompanyModel>): (r: seq<string>)
    ensures |r| == |list| && forall i :: 0 <= i < |list| ==> r[i] == Trim(list[i].name)
  {
    seq(|list|, i requires 0 <= i < |list| => Trim(list[i].name))
  }

  /** The transaction after one INSERT OR IGNORE per name, in list order. */
  function InsertAll(t: Tables, names: seq<string>, stamp: int): Tables {
    if names == [] then t
    else InsertCompany(InsertAll(t, names[..|names| - 1], stamp), names[|names| - 1], stamp)
  }

  /** The names the table receives: those that pass CHECK company_name_len, in order. */
  function KeptNames(names: seq<string>): (r: seq<string>)
    ensures |r| <= |names|
    ensures forall n :: n in r <==> n in names && NameFits(n)
  {
    if names == [] then []
    else
      var n := names[|names| - 1];
      KeptNames(names[..|names| - 1]) + (if NameFits(n) then [n] else [])
  }

  /** The rows the transaction adds after the AUTOINCREMENT counter `top`: every statement
      draws the next counter value, and the names that pass the CHECK keep theirs. */
  function NewCompanies(top: int, names: seq<string>, stamp: int): seq<Company> {
    if names == [] then []
    else
      var n := names[|names| - 1];
      NewCompanies(top, names[..|names| - 1], stamp)
        + (if NameFits(n) then [Company(top + |names|, n, NewAudit(stamp))] else [])
  }

  /** The new rows carry the kept names in order, with increasing ids inside the range the
      list draws. */
  lemma {:induction false} NewCompaniesShape(top: int, names: seq<string>, stamp: int)
    ensures var r := NewCompanies(top, names, stamp);
      && |r| == |KeptNames(names)|
      && (forall i :: 0 <= i < |r| ==> r[i].name == KeptNames(names)[i] && top < r[i].id <= top + |names|)
      && (forall i, j :: 0 <= i < j < |r| ==> r[i].id < r[j].id)
  {
    if names != [] {
      NewCompaniesShape(top, names[..|names| - 1], stamp);
    }
  }

  /** A new row is exactly a name of the list that passes the CHECK, with the id its position
      in the whole list gives it. */
  lemma {:induction false} NewCompaniesMembers(top: int, names: seq<string>, stamp: int)
    ensures forall c :: c in NewCompanies(top, names, stamp) <==>
      exists i :: 0 <= i < |names| && NameFits(names[i]) && c == Company(top + 1 + i, names[i], NewAudit(stamp))
  {
    if names != [] {
      var init := names[..|names| - 1];
      var n := names[|names| - 1];
      NewCompaniesMembers(top, init, stamp);
      var r := NewCompanies(top, names, stamp);
      var r0 := NewCompanies(top, init, stamp);
      forall c | c in r
        ensures exists i :: 0 <= i < |names| && NameFits(names[i]) && c == Company(top + 1 + i, names[i], NewAudit(stamp))
      {
        if c in r0 {
          var i :| 0 <= i < |init| && NameFits(init[i]) && c == Company(top + 1 + i, init[i], NewAudit(stamp));
          assert names[i] == init[i];
        } else {
          assert NameFits(n) && c == Company(top + 1 + (|names| - 1), names[|names| - 1], NewAudit(stamp));
        }
      }
      forall c | exists i :: 0 <= i < |names| && NameFits(names[i]) && c == Company(top + 1 + i, names[i], NewAudit(stamp))
        ensures c in r
      {
        var i :| 0 <= i < |names| && NameFits(names[i]) && c == Company(top + 1 + i, names[i], NewAudit(stamp));
        if i < |init| {
          assert init[i] == names[i];
          assert c in r0;
        }
      }
    }
  }

  /** The transaction appends one fresh active row per kept name, in list order, and advances
      the counter once per name, kept or skipped; it touches no other table. */
  lemma {:induction false} InsertAllAppends(t: Tables, names: seq<string>, stamp: int)
    ensures InsertAll(t, names, stamp) ==
      t.(companies := t.companies + NewCompanies(t.companySeq, names, stamp),
         companySeq := t.companySeq + |names|)
  {
    if names == [] {
      assert t.companies + [] == t.companies;
    } else {
      var init := names[..|names| - 1];
      InsertAllAppends(t, init, stamp);
      assert t.companies + NewCompanies(t.companySeq, names, stamp)
          == (t.companies + NewCompanies(t.companySeq, init, stamp))
             + (if NameFits(names[|names| - 1]) then [Company(t.companySeq + |names|, names[|names| - 1], NewAudit(stamp))] else []);
    }
  }

  /** A skipped name still uses up an id: after an over-long name, "Acme" gets id 2. */
  lemma SkippedNameUsesId(stamp: int)
    ensures InsertAll(EmptyTables(), ["Thirty-three characters long name", "Acme"], stamp).companies
         == [Company(2, "Acme", NewAudit(stamp))]
  {
    var names := ["Thirty-three characters long name", "Acme"];
    assert |names[0]| == 33;
    InsertAllAppends(EmptyTables(), names, stamp);
    assert names[..1] == [names[0]] && names[..1][..0] == [];
    assert NewCompanies(0, names[..1], stamp) == [];
  }

  /** The transaction keeps every table invariant. */
  lemma {:induction false} InsertAllValid(t: Tables, names: seq<string>, stamp: int)
    requires Valid(t)
    ensures Valid(InsertAll(t, names, stamp))
  {
    if names != [] {
      InsertAllValid(t, names[..|names| - 1], stamp);
      InsertCompanyValid(InsertAll(t, names[..|names| - 1], stamp), names[|names| - 1], stamp);
    }
  }

  /** `set` trims a blank name to the empty string and a padded one to its core. */
  lemma TrimmedNamesExample()
    ensures TrimmedNames([CompanyModel(None, "  "), CompanyModel(None, "Acme ")]) == ["", "Acme"]
  {
    var l := [CompanyModel(None, "  "), CompanyModel(None, "Acme ")];
    var r := TrimmedNames(l);
    assert r[0] == Trim("  ");
    assert r[1] == Trim("Acme ");
    TrimBlankExample();
    TrimPaddedExample();
  }

  lemma TrimBlankExample()
    ensures Trim("  ") == ""
  {
    assert Blank("  ");
    TrimEmptyIffBlank("  ");
  }

  lemma TrimPaddedExample()
    ensures Trim("Acme ") == "Acme"
  {
    assert TrimStart("Acme ") == "Acme ";
    assert TrimEnd("Acme ") == "Acme";
  }

  /** Neither an empty name nor a repeated one is refused; only an over-long one is. */
  lemma KeptNamesExample()
    ensures KeptNames(["", "Acme", "Acme", "Thirty-three characters long name"]) == ["", "Acme", "Acme"]
  {
    var names := ["", "Acme", "Acme", "Thirty-three characters long name"];
    assert |names[3]| == 33 && !NameFits(names[3]);
    assert names[..3][..2][..1][..0] == [];
    assert KeptNames(names[..3][..2][..1]) == [""];
    assert KeptNames(names[..3][..2]) == ["", "Acme"];
    assert KeptNames(names[..3]) == ["", "Acme", "Acme"];
  }

  // ---------------------------------------------------------------------------
  // toCompanyModel.

  /** String.prototype.trim over every string of the list. */
  function TrimAll(names: seq<string>): (r: seq<string>)
    ensures |r| == |names| && forall i :: 0 <= i < |names| ==> r[i] == Trim(names[i])
  {
    seq(|names|, i requires 0 <= i < |names| => Trim(names[i]))
  }

  /** A new company (no id) for every non-empty trimmed name, in order. */
  function NonEmptyModels(trimmed: seq<string>): seq<CompanyModel> {
    if trimmed == [] then []
    else
      var n := trimmed[|trimmed| - 1];
      NonEmptyModels(trimmed[..|trimmed| - 1]) + (if n != [] then [CompanyModel(None, n)] else [])
  }

  /** The companies a list of typed names describes: each name trimmed, blanks dropped. */
  function CompanyModels(names: seq<string>): seq<CompanyModel> {
    NonEmptyModels(TrimAll(names))
  }

  /** One more name read by the loop of `toCompanyModel`. */
  lemma NextName(names: seq<string>, i: int)
    requires 0 <= i < |names|
    ensures CompanyModels(names[..i + 1])
         == CompanyModels(names[..i]) + (if Trim(names[i]) != [] then [CompanyModel(None, Trim(names[i]))] else [])
  {
    var ts := TrimAll(names[..i]);
    assert TrimAll(names[..i + 1]) == ts + [Trim(names[i])];
    assert (ts + [Trim(names[i])])[..|ts|] == ts;
  }

  /** Converting a concatenation converts the parts one after the other, so input order is
      kept. */
  lemma {:induction false} NonEmptyModelsConcat(a: seq<string>, b: seq<string>)
    ensures NonEmptyModels(a + b) == NonEmptyModels(a) + NonEmptyModels(b)
  {
    if b == [] {
      assert a + b == a;
    } else {
      assert (a + b)[..|a + b| - 1] == a + b[..|b| - 1];
      NonEmptyModelsConcat(a, b[..|b| - 1]);
    }
  }

  lemma CompanyModelsConcat(a: seq<string>, b: seq<string>)
    ensures CompanyModels(a + b) == CompanyModels(a) + CompanyModels(b)
  {
    assert TrimAll(a + b) == TrimAll(a) + TrimAll(b);
    NonEmptyModelsConcat(TrimAll(a), TrimAll(b));
  }

  /** Exactly the non-empty strings become models, none with an id. */
  lemma {:induction false} NonEmptyModelsMembers(trimmed: seq<string>)
    ensures |NonEmptyModels(trimmed)| <= |trimmed|
    ensures forall m :: m in NonEmptyModels(trimmed) ==> m.id.None? && m.name != [] && m.name in trimmed
    ensures forall n :: n in trimmed && n != [] ==> CompanyModel(None, n) in NonEmptyModels(trimmed)
  {
    if trimmed != [] {
      var init := trimmed[..|trimmed| - 1];
      NonEmptyModelsMembers(init);
      assert trimmed == init + [trimmed[|trimmed| - 1]];
    }
  }

  /** Every model is new (no id) and carries a non-empty trimmed name; a name appears exactly
      when some input trims to it and is not blank; none is invented. */
  lemma CompanyModelsMeaning(names: seq<string>)
    ensures |CompanyModels(names)| <= |names|
    ensures forall m :: m in CompanyModels(names) ==> m.id.None? && m.name != [] && Trim(m.name) == m.name
    ensures forall n :: CompanyModel(None, n) in CompanyModels(names) <==>
      exists i :: 0 <= i < |names| && n == Trim(names[i]) && !Blank(names[i])
  {
    var ts := TrimAll(names);
    NonEmptyModelsMembers(ts);
    forall m | m in CompanyModels(names)
      ensures Trim(m.name) == m.name
    {
      var i :| 0 <= i < |ts| && ts[i] == m.name;
      TrimIdempotent(names[i]);
    }
    forall n
      ensures CompanyModel(None, n) in CompanyModels(names) <==>
        exists i :: 0 <= i < |names| && n == Trim(names[i]) && !Blank(names[i])
    {
      if CompanyModel(None, n) in CompanyModels(names) {
        var i :| 0 <= i < |ts| && ts[i] == n;
        TrimEmptyIffBlank(names[i]);
      }
      if exists i :: 0 <= i < |names| && n == Trim(names[i]) && !Blank(names[i]) {
        var i :| 0 <= i < |names| && n == Trim(names[i]) && !Blank(names[i]);
        TrimEmptyIffBlank(names[i]);
        assert ts[i] == n;
      }
    }
  }

  lemma TrimNameExample()
    ensures Trim("Company 1") == "Company 1" && Trim("Company 2") == "Company 2"
  {
    assert TrimStart("Company 1") == "Company 1";
    assert TrimStart("Company 2") == "Company 2";
  }

  lemma TrimSpacesExample()
    ensures Trim("") == "" && Trim("   ") == ""
  {
    assert Blank("   ");
    TrimEmptyIffBlank("   ");
  }

  lemma TrimPaddedNameExample()
    ensures Trim("  Company 1  ") == "Company 1"
  {
    var s := "  Company 1  ";
    assert s[1..] == " Company 1  " && s[1..][1..] == "Company 1  ";
    assert TrimStart(s[1..][1..]) == "Company 1  ";
    assert TrimStart(s) == "Company 1  ";
    var e := "Company 1  ";
    assert e[..|e| - 1] == "Company 1 " && e[..|e| - 1][..|e| - 2] == "Company 1";
    assert TrimEnd("Company 1") == "Company 1";
    assert TrimEnd(e) == "Company 1";
  }

  /** The two lists the component tests feed in. */
  lemma CompanyModelsExamples()
    ensures CompanyModels(["Company 1", "", "   ", "Company 2"])
         == [CompanyModel(None, "Company 1"), CompanyModel(None, "Company 2")]
    ensures CompanyModels(["  Company 1  "]) == [CompanyModel(None, "Company 1")]
  {
    var names := ["Company 1", "", "   ", "Company 2"];
    var ts := TrimAll(names);
    TrimNameExample();
    TrimSpacesExample();
    assert ts[0] == "Company 1";
    assert ts[1] == "";
    assert ts[2] == "";
    assert ts[3] == "Company 2";
    assert ts == ["Company 1", "", "", "Company 2"];
    var m := NonEmptyModels(ts);
    assert ts[..3][..2][..1][..0] == [];
    assert NonEmptyModels(ts[..3][..2][..1]) == [CompanyModel(None, "Company 1")];
    assert NonEmptyModels(ts[..3][..2]) == [CompanyModel(None, "Company 1")];
    assert NonEmptyModels(ts[..3]) == [CompanyModel(None, "Company 1")];
    var one := TrimAll(["  Company 1  "]);
    TrimPaddedNameExample();
    assert one == ["Company 1"];
    assert one[..0] == [];
  }

  /** The id a stored company carries (rows read from the table always have one). */
  function IdOf(m: CompanyModel): int {
    if m.id.Some? then m.id.value else 0
  }

  /** ORDER BY id DESC. */
  predicate ByIdDesc(a: CompanyModel, b: CompanyModel) {
    IdOf(a) >= IdOf(b)
  }

  lemma ByIdDescOrder()
    ensures IsTotal(ByIdDesc) && IsTransitive(ByIdDesc)
  {
  }

  class CompanyService {
    const db: Store

    constructor (db: Store)
      ensures this.db == db
    {
      this.db := db;
    }

    /** getOne: the row with the given id, active or not, or null. */
    function GetOne(id: int): (r: Option<CompanyModel>)
      reads db
      ensures r.Some? ==> r.value.id == Some(id) && exists c :: c in db.tables.companies && c.id == id && c.name == r.value.name
      ensures r.None? <==> forall i :: 0 <= i < |db.tables.companies| ==> db.tables.companies[i].id != id
    {
      match FindBy(db.tables.companies, CompanyId, id)
      case None => None
      case Some(c) => Some(ModelOf(c))
    }

    /** set: runs the statements for the whole list in one transaction and answers true. */
    method Set(list: seq<CompanyModel>, stamp: int) returns (ok: bool)
      modifies db
      ensures ok
      ensures db.tables == InsertAll(old(db.tables), TrimmedNames(list), stamp)
    {
      ghost var names := TrimmedNames(list);
      for i := 0 to |list|
        invariant db.tables == InsertAll(old(db.tables), names[..i], stamp)
      {
        var name := Trim(list[i].name);
        assert names[..i + 1] == names[..i] + [name];
        db.tables := InsertCompany(db.tables, name, stamp);
      }
      assert names[..|list|] == names;
      ok := true;
    }

    /** get: every company, active or not, highest id first. */
    function Get(): (r: seq<CompanyModel>)
      reads db
      ensures multiset(r) == multiset(MapSeq(db.tables.companies, ModelOf))
      ensures forall i, j :: 0 <= i <= j < |r| ==> IdOf(r[i]) >= IdOf(r[j])
    {
      ByIdDescOrder();
      var r := SortBy(MapSeq(db.tables.companies, ModelOf), ByIdDesc);
      forall i, j | 0 <= i <= j < |r|
        ensures IdOf(r[i]) >= IdOf(r[j])
      {
        SortedPairwise(r, ByIdDesc, i, j);
      }
      r
    }

    /** remove: false for a model without an id (or id 0), true otherwise; deletes nothing. */
    function Remove(c: CompanyModel): (ok: bool)
      ensures ok <==> c.id.Some? && c.id.value != 0
    {
      c.id.Some? && c.id.value != 0
    }

    /** removeMany: refuses. */
    function RemoveMany(cs: seq<CompanyModel>): (ok: bool)
      ensures !ok
    {
      false
    }

    /** toCompanyModel: a loop that trims each name and keeps the non-blank ones. */
    method ToCompanyModel(companies: seq<string>) returns (r: seq<CompanyModel>)
      ensures r == CompanyModels(companies)
    {
      r := [];
      var i := 0;
      while i < |companies|
        invariant 0 <= i <= |companies|
        invariant r == CompanyModels(companies[..i])
      {
        var name := Trim(companies[i]);
        NextName(companies, i);
        if name != [] {
          r := r + [CompanyModel(None, name)];
        }
        i := i + 1;
      }
      assert companies[..i] == companies;
    }
  }

  /** After `set`, `get` lists the companies the list added first, newest of them first. */
  lemma GetNewestFirst(svc: CompanyService)
    requires Valid(svc.db.tables)
    ensures svc.Get() == Reverse(MapSeq(svc.db.tables.companies, ModelOf))
  {
    var ms := MapSeq(svc.db.tables.companies, ModelOf);
    forall i, j | 0 <= i < j < |ms|
      ensures IdOf(ms[i]) < IdOf(ms[j])
    {
    }
    DescendingIsReverse(ms, svc.Get(), IdOf);
  }
}
