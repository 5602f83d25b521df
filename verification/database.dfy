/**
 * The food store and the JSON ingestion of src/api/database.rs, over an
 * abstract SQLite database.
 *
 * Each lookup table is a sequence of texts whose row id is the position
 * plus one: rows are only ever appended, so SQLite hands out ids 1, 2, 3,
 * ... The schema is assumed to make every lookup text unique (what
 * `INSERT OR IGNORE` followed by `SELECT ... LIMIT 1` relies on) and to
 * key each link table by its pair of ids.
 *
 * The database can fail any statement. `fault` names the statement that
 * fails, counting from 0 for the existence check; a failure inside the
 * transaction rolls it back.
 */
module Database {
  import opened Wrappers
  import opened Text
  import opened Foods

  /** A `foods` row: the description, `verified`, the image and source ids, and the nutrient columns. */
  datatype FoodRow = FoodRow(description: string, verified: bool, imageId: nat, sourceId: nat, nutrients: seq<F32>)

  datatype Db = Db(
    foods: seq<FoodRow>,
    sources: seq<string>,
    images: seq<string>,
    tags: seq<string>,
    allergens: seq<string>,
    servingDescriptions: seq<string>,
    foodTags: set<(nat, nat)>,
    foodAllergens: set<(nat, nat)>,
    foodServings: map<(nat, nat), F32>)

  datatype InsertError =
    | AlreadyExists(description: string)
    | DbError(statement: nat)

  const EmptyDb := Db([], [], [], [], [], [], {}, {}, map[])

  /** The 22 nutrient columns `insert_food` binds, in bind order. `fiber` is not among them. */
  function BoundNutrients(n: Nutrients): (r: seq<F32>)
    ensures |r| == 22
  {
    [n.glycemicIndex, n.energy, n.carbohydrate, n.protein, n.fat, n.saturatedFat,
     n.transFat, n.sugar, n.cholesterol, n.sodium, n.potassium, n.iron, n.magnesium,
     n.calcium, n.zinc, n.vitaminA, n.vitaminB6, n.vitaminB12, n.vitaminC, n.vitaminD,
     n.vitaminE, n.vitaminK]
  }

  predicate Distinct(t: seq<string>) {
    forall i, j :: 0 <= i < j < |t| ==> t[i] != t[j]
  }

  /** `id` names a row of a table with `n` rows. */
  predicate IdIn(id: nat, n: nat) {
    1 <= id <= n
  }

  /** A table only grew: the old rows are still the first rows. */
  predicate Extends(t: seq<string>, t': seq<string>) {
    |t| <= |t'| && t'[..|t|] == t
  }

  /** `SELECT id FROM t WHERE description = ?`, as a position: the first row holding `x`. */
  function IndexOf(t: seq<string>, x: string): (r: Option<nat>)
    ensures r.Some? ==> r.value < |t| && t[r.value] == x
    ensures r.None? ==> x !in t
  {
    if t == [] then None
    else if t[0] == x then Some(0)
    else match IndexOf(t[1..], x)
      case Some(i) => Some(i + 1)
      case None => None
  }

  /**
   * `INSERT OR IGNORE` of a text, then `SELECT id` of it: the table gains
   * the text if it lacked it, and the id returned names the row holding it.
   */
  function Intern(t: seq<string>, x: string): (r: (seq<string>, nat))
    ensures IdIn(r.1, |r.0|) && r.0[r.1 - 1] == x
    ensures x in t ==> r.0 == t
    ensures x !in t ==> r.0 == t + [x]
    ensures Distinct(t) ==> Distinct(r.0)
  {
    match IndexOf(t, x)
    case Some(i) => (t, i + 1)
    case None => (t + [x], |t| + 1)
  }

  /** Interning the same text twice returns the same id and adds nothing the second time. */
  lemma InternTwice(t: seq<string>, x: string)
    ensures Intern(Intern(t, x).0, x) == Intern(t, x)
  {
    if x !in t {
      assert IndexOf(t + [x], x) == Some(|t|) by {
        IndexOfAppend(t, x);
      }
    }
  }

  lemma {:induction false} IndexOfAppend(t: seq<string>, x: string)
    requires x !in t
    ensures IndexOf(t + [x], x) == Some(|t|)
  {
    if t != [] {
      assert (t + [x])[1..] == t[1..] + [x];
      IndexOfAppend(t[1..], x);
    }
  }

  /** The SQLite-lowered texts of a list. */
  function Lowered(texts: seq<string>): (r: seq<string>)
    ensures |r| == |texts| && forall i :: 0 <= i < |texts| ==> r[i] == AsciiLower(texts[i])
  {
    seq(|texts|, i requires 0 <= i < |texts| => AsciiLower(texts[i]))
  }

  /** Food `fid` is linked to a row of `t` holding `x`. */
  ghost predicate Linked(t: seq<string>, links: set<(nat, nat)>, fid: nat, x: string) {
    exists id :: IdIn(id, |t|) && (fid, id) in links && t[id - 1] == x
  }

  lemma LinkedGrows(t: seq<string>, links: set<(nat, nat)>, t': seq<string>, links': set<(nat, nat)>, fid: nat, x: string)
    requires Linked(t, links, fid, x) && Extends(t, t') && links <= links'
    ensures Linked(t', links', fid, x)
  {
    var id :| IdIn(id, |t|) && (fid, id) in links && t[id - 1] == x;
    assert t'[id - 1] == t'[..|t|][id - 1];
  }

  /**
   * The loop over tags (or allergens): each text goes in lowered by SQLite's
   * `LOWER`, and the food is linked to its row; a link already present is
   * ignored.
   */
  function LinkAll(t: seq<string>, links: set<(nat, nat)>, fid: nat, texts: seq<string>)
    : (r: (seq<string>, set<(nat, nat)>))
    decreases |texts|
    ensures Extends(t, r.0)
    ensures forall i :: |t| <= i < |r.0| ==> r.0[i] in Lowered(texts)
    ensures Distinct(t) ==> Distinct(r.0)
    ensures links <= r.1
    ensures forall p :: p in r.1 && p !in links ==>
      p.0 == fid && IdIn(p.1, |r.0|) && r.0[p.1 - 1] in Lowered(texts)
    ensures forall j :: 0 <= j < |texts| ==> Linked(r.0, r.1, fid, AsciiLower(texts[j]))
  {
    if texts == [] then (t, links)
    else
      var (t1, id) := Intern(t, AsciiLower(texts[0]));
      var r := LinkAll(t1, links + {(fid, id)}, fid, texts[1..]);
      LinkAllStep(t, links, fid, texts, t1, id, r);
      r
  }

  lemma LinkAllStep(t: seq<string>, links: set<(nat, nat)>, fid: nat, texts: seq<string>,
                    t1: seq<string>, id: nat, r: (seq<string>, set<(nat, nat)>))
    requires texts != [] && (t1, id) == Intern(t, AsciiLower(texts[0]))
    requires Extends(t1, r.0)
    requires forall i :: |t1| <= i < |r.0| ==> r.0[i] in Lowered(texts[1..])
    requires links + {(fid, id)} <= r.1
    requires forall p :: p in r.1 && p !in links + {(fid, id)} ==>
      p.0 == fid && IdIn(p.1, |r.0|) && r.0[p.1 - 1] in Lowered(texts[1..])
    requires forall j :: 0 <= j < |texts[1..]| ==> Linked(r.0, r.1, fid, AsciiLower(texts[1..][j]))
    ensures Extends(t, r.0)
    ensures forall i :: |t| <= i < |r.0| ==> r.0[i] in Lowered(texts)
    ensures links <= r.1
    ensures forall p :: p in r.1 && p !in links ==>
      p.0 == fid && IdIn(p.1, |r.0|) && r.0[p.1 - 1] in Lowered(texts)
    ensures forall j :: 0 <= j < |texts| ==> Linked(r.0, r.1, fid, AsciiLower(texts[j]))
  {
    LoweredCons(texts);
    StepTable(t, t1, AsciiLower(texts[0]), r.0, Lowered(texts[1..]));
    assert r.0[id - 1] == t1[..|t1|][id - 1];
    NewLinksStep(r.0, links, r.1, fid, texts, id);
    LinkedStep(r.0, r.1, fid, texts, id);
  }

  lemma NewLinksStep(t: seq<string>, links: set<(nat, nat)>, links': set<(nat, nat)>, fid: nat,
                     texts: seq<string>, id: nat)
    requires texts != [] && IdIn(id, |t|) && t[id - 1] == AsciiLower(texts[0])
    requires Lowered(texts) == [AsciiLower(texts[0])] + Lowered(texts[1..])
    requires forall p :: p in links' && p !in links + {(fid, id)} ==>
      p.0 == fid && IdIn(p.1, |t|) && t[p.1 - 1] in Lowered(texts[1..])
    ensures forall p :: p in links' && p !in links ==>
      p.0 == fid && IdIn(p.1, |t|) && t[p.1 - 1] in Lowered(texts)
  {
  }

  lemma LinkedStep(t: seq<string>, links: set<(nat, nat)>, fid: nat, texts: seq<string>, id: nat)
    requires texts != [] && IdIn(id, |t|) && (fid, id) in links && t[id - 1] == AsciiLower(texts[0])
    requires forall j :: 0 <= j < |texts[1..]| ==> Linked(t, links, fid, AsciiLower(texts[1..][j]))
    ensures forall j :: 0 <= j < |texts| ==> Linked(t, links, fid, AsciiLower(texts[j]))
  {
    forall j | 0 <= j < |texts| ensures Linked(t, links, fid, AsciiLower(texts[j])) {
      if j > 0 {
        assert texts[1..][j - 1] == texts[j];
      }
    }
  }

  lemma LoweredCons(texts: seq<string>)
    requires texts != []
    ensures Lowered(texts) == [AsciiLower(texts[0])] + Lowered(texts[1..])
  {
  }

  /** One interned text, then more rows: the table extends the original, and every new row is the text or a later one. */
  lemma StepTable(t: seq<string>, t1: seq<string>, x: string, t2: seq<string>, later: seq<string>)
    requires t1 == t || t1 == t + [x]
    requires Extends(t1, t2)
    requires forall i :: |t1| <= i < |t2| ==> t2[i] in later
    ensures Extends(t, t2)
    ensures forall i :: |t| <= i < |t2| ==> t2[i] in [x] + later
  {
    assert t2[..|t|] == t2[..|t1|][..|t|];
    forall i | |t| <= i < |t2| ensures t2[i] in [x] + later {
      if i < |t1| {
        assert t2[i] == t2[..|t1|][i] == t1[i] == x;
      }
    }
  }

  function Names(servings: seq<Serving>): (r: seq<string>)
    ensures |r| == |servings| && forall i :: 0 <= i < |servings| ==> r[i] == servings[i].name
  {
    seq(|servings|, i requires 0 <= i < |servings| => servings[i].name)
  }

  /** Food `fid` has a serving row for a description row holding `name`. */
  ghost predicate ServingLinked(t: seq<string>, links: map<(nat, nat), F32>, fid: nat, name: string) {
    exists id :: IdIn(id, |t|) && (fid, id) in links && t[id - 1] == name
  }

  /**
   * The loop over servings: each description goes in as written, and the
   * food gets a serving row with the weight; a row already present for the
   * pair is left as it is (`INSERT OR IGNORE`).
   */
  function AddServings(t: seq<string>, links: map<(nat, nat), F32>, fid: nat, servings: seq<Serving>)
    : (r: (seq<string>, map<(nat, nat), F32>))
    decreases |servings|
    ensures Extends(t, r.0)
    ensures forall i :: |t| <= i < |r.0| ==> r.0[i] in Names(servings)
    ensures Distinct(t) ==> Distinct(r.0)
    ensures forall k :: k in links ==> k in r.1 && r.1[k] == links[k]
    ensures forall k :: k in r.1 && k !in links ==>
      k.0 == fid && IdIn(k.1, |r.0|) && Serving(r.0[k.1 - 1], r.1[k]) in servings
    ensures forall j :: 0 <= j < |servings| ==> ServingLinked(r.0, r.1, fid, servings[j].name)
  {
    if servings == [] then (t, links)
    else
      var (t1, id) := Intern(t, servings[0].name);
      var links1 := if (fid, id) in links then links else links[(fid, id) := servings[0].weight];
      var r := AddServings(t1, links1, fid, servings[1..]);
      AddServingsStep(t, links, fid, servings, t1, id, links1, r);
      r
  }

  lemma AddServingsStep(t: seq<string>, links: map<(nat, nat), F32>, fid: nat, servings: seq<Serving>,
                        t1: seq<string>, id: nat, links1: map<(nat, nat), F32>,
                        r: (seq<string>, map<(nat, nat), F32>))
    requires servings != [] && (t1, id) == Intern(t, servings[0].name)
    requires links1 == if (fid, id) in links then links else links[(fid, id) := servings[0].weight]
    requires Extends(t1, r.0)
    requires forall i :: |t1| <= i < |r.0| ==> r.0[i] in Names(servings[1..])
    requires forall k :: k in links1 ==> k in r.1 && r.1[k] == links1[k]
    requires forall k :: k in r.1 && k !in links1 ==>
      k.0 == fid && IdIn(k.1, |r.0|) && Serving(r.0[k.1 - 1], r.1[k]) in servings[1..]
    requires forall j :: 0 <= j < |servings[1..]| ==> ServingLinked(r.0, r.1, fid, servings[1..][j].name)
    ensures Extends(t, r.0)
    ensures forall i :: |t| <= i < |r.0| ==> r.0[i] in Names(servings)
    ensures forall k :: k in links ==> k in r.1 && r.1[k] == links[k]
    ensures forall k :: k in r.1 && k !in links ==>
      k.0 == fid && IdIn(k.1, |r.0|) && Serving(r.0[k.1 - 1], r.1[k]) in servings
    ensures forall j :: 0 <= j < |servings| ==> ServingLinked(r.0, r.1, fid, servings[j].name)
  {
    ServingTableStep(t, t1, servings, r.0);
    assert r.0[id - 1] == t1[..|t1|][id - 1];
    assert (fid, id) in links1;
    NewServingKeys(t, links, fid, servings, t1, id, links1, r);
    ServingsLinkedStep(fid, servings, id, r);
  }

  lemma ServingTableStep(t: seq<string>, t1: seq<string>, servings: seq<Serving>, t2: seq<string>)
    requires servings != [] && (t1 == t || t1 == t + [servings[0].name])
    requires Extends(t1, t2)
    requires forall i :: |t1| <= i < |t2| ==> t2[i] in Names(servings[1..])
    ensures Extends(t, t2)
    ensures forall i :: |t| <= i < |t2| ==> t2[i] in Names(servings)
  {
    NamesCons(servings);
    StepTable(t, t1, servings[0].name, t2, Names(servings[1..]));
  }

  lemma NamesCons(servings: seq<Serving>)
    requires servings != []
    ensures Names(servings) == [servings[0].name] + Names(servings[1..])
  {
  }

  lemma NewServingKeys(t: seq<string>, links: map<(nat, nat), F32>, fid: nat, servings: seq<Serving>,
                       t1: seq<string>, id: nat, links1: map<(nat, nat), F32>,
                       r: (seq<string>, map<(nat, nat), F32>))
    requires servings != [] && IdIn(id, |t1|) && t1[id - 1] == servings[0].name
    requires links1 == if (fid, id) in links then links else links[(fid, id) := servings[0].weight]
    requires Extends(t1, r.0)
    requires forall k :: k in links1 ==> k in r.1 && r.1[k] == links1[k]
    requires forall k :: k in r.1 && k !in links1 ==>
      k.0 == fid && IdIn(k.1, |r.0|) && Serving(r.0[k.1 - 1], r.1[k]) in servings[1..]
    ensures forall k :: k in links ==> k in r.1 && r.1[k] == links[k]
    ensures forall k :: k in r.1 && k !in links ==>
      k.0 == fid && IdIn(k.1, |r.0|) && Serving(r.0[k.1 - 1], r.1[k]) in servings
  {
    assert r.0[id - 1] == t1[id - 1];
    assert servings == [servings[0]] + servings[1..];
    forall k | k in r.1 && k !in links
      ensures k.0 == fid && IdIn(k.1, |r.0|) && Serving(r.0[k.1 - 1], r.1[k]) in servings
    {
      if k == (fid, id) {
        assert Serving(r.0[k.1 - 1], r.1[k]) == servings[0];
      } else {
        assert k !in links1;
      }
    }
  }

  lemma ServingsLinkedStep(fid: nat, servings: seq<Serving>, id: nat, r: (seq<string>, map<(nat, nat), F32>))
    requires servings != [] && IdIn(id, |r.0|) && (fid, id) in r.1 && r.0[id - 1] == servings[0].name
    requires forall j :: 0 <= j < |servings[1..]| ==> ServingLinked(r.0, r.1, fid, servings[1..][j].name)
    ensures forall j :: 0 <= j < |servings| ==> ServingLinked(r.0, r.1, fid, servings[j].name)
  {
    forall j | 0 <= j < |servings| ensures ServingLinked(r.0, r.1, fid, servings[j].name) {
      if j > 0 {
        assert servings[1..][j - 1] == servings[j];
      }
    }
  }

  /** Some row of `rows` has exactly description `d`. */
  function DescriptionIn(rows: seq<FoodRow>, d: string): (r: bool)
    ensures r <==> exists i :: 0 <= i < |rows| && rows[i].description == d
  {
    if rows == [] then false
    else if rows[0].description == d then true
    else
      var r := DescriptionIn(rows[1..], d);
      assert r ==> exists i :: 0 <= i < |rows| && rows[i].description == d by {
        if r {
          var i :| 0 <= i < |rows[1..]| && rows[1..][i].description == d;
          assert rows[i + 1].description == d;
        }
      }
      assert (exists i :: 0 <= i < |rows| && rows[i].description == d) ==> r by {
        if exists i :: 0 <= i < |rows| && rows[i].description == d {
          var i :| 0 <= i < |rows| && rows[i].description == d;
          assert i != 0;
          assert rows[1..][i - 1].description == d;
        }
      }
      r
  }

  /**
   * `food_exists_by_description`: `SELECT id FROM foods WHERE description = ?`
   * finds a row. SQLite's `=` on text is exact, so case matters.
   */
  function FoodExistsByDescription(db: Db, d: string): (r: bool)
    ensures r <==> exists i :: 0 <= i < |db.foods| && db.foods[i].description == d
  {
    DescriptionIn(db.foods, d)
  }

  predicate DistinctDescriptions(rows: seq<FoodRow>) {
    forall i, j :: 0 <= i < j < |rows| ==> rows[i].description != rows[j].description
  }

  /** Every text of the table is already SQLite-lowercase. */
  predicate LowerTexts(t: seq<string>) {
    forall i :: 0 <= i < |t| ==> AsciiLower(t[i]) == t[i]
  }

  predicate RowOk(row: FoodRow, db: Db) {
    IdIn(row.imageId, |db.images|) && IdIn(row.sourceId, |db.sources|) && |row.nutrients| == 22
  }

  /**
   * What the store keeps true: no text twice in a lookup table, no
   * description twice among foods, no reference to a missing row, and tags
   * and allergens stored lowercase.
   */
  predicate WellFormed(db: Db) {
    && Distinct(db.sources) && Distinct(db.images) && Distinct(db.tags)
    && Distinct(db.allergens) && Distinct(db.servingDescriptions)
    && DistinctDescriptions(db.foods)
    && (forall i :: 0 <= i < |db.foods| ==> RowOk(db.foods[i], db))
    && (forall p :: p in db.foodTags ==> IdIn(p.0, |db.foods|) && IdIn(p.1, |db.tags|))
    && (forall p :: p in db.foodAllergens ==> IdIn(p.0, |db.foods|) && IdIn(p.1, |db.allergens|))
    && (forall k :: k in db.foodServings ==> IdIn(k.0, |db.foods|) && IdIn(k.1, |db.servingDescriptions|))
    && LowerTexts(db.tags) && LowerTexts(db.allergens)
  }

  /** `food.verified.unwrap_or(false)`. */
  function VerifiedOrFalse(v: Option<bool>): bool {
    match v
    case Some(b) => b
    case None => false
  }

  /** The row `insert_food` writes for a food, given the ids of its image and source. */
  function RowOf(food: Food, imageId: nat, sourceId: nat): FoodRow {
    FoodRow(food.description, VerifiedOrFalse(food.verified), imageId, sourceId, BoundNutrients(food.nutrients))
  }

  /**
   * The transaction's writes when every statement succeeds: the source and
   * the image, the food row under the next id, then the tag, allergen and
   * serving loops.
   */
  function Stage(db: Db, food: Food): Db {
    var (sources, sourceId) := Intern(db.sources, food.source);
    var (images, imageId) := Intern(db.images, food.imageUrl);
    var fid := |db.foods| + 1;
    var (tags, foodTags) := LinkAll(db.tags, db.foodTags, fid, food.tags);
    var (allergens, foodAllergens) := LinkAll(db.allergens, db.foodAllergens, fid, food.allergens);
    var (names, foodServings) := AddServings(db.servingDescriptions, db.foodServings, fid, food.servings);
    Db(db.foods + [RowOf(food, imageId, sourceId)], sources, images, tags, allergens, names,
       foodTags, foodAllergens, foodServings)
  }

  /**
   * The statements `insert_food` runs for a food: the existence check,
   * `BEGIN`, two each for source and image, the food row, three for each
   * tag, allergen and serving, and the commit.
   */
  function StatementCount(food: Food): nat {
    8 + 3 * (|food.tags| + |food.allergens| + |food.servings|)
  }

  /** The fault falls on a statement the transaction runs. */
  predicate FaultHits(fault: Option<nat>, food: Food) {
    fault.Some? && fault.value < StatementCount(food)
  }

  /**
   * `db'` only adds to `db`: every row of every table is still there under
   * its id, every link is still there, and every serving row keeps its weight.
   */
  predicate Keeps(db: Db, db': Db) {
    && |db.foods| <= |db'.foods| && db'.foods[..|db.foods|] == db.foods
    && Extends(db.sources, db'.sources) && Extends(db.images, db'.images)
    && Extends(db.tags, db'.tags) && Extends(db.allergens, db'.allergens)
    && Extends(db.servingDescriptions, db'.servingDescriptions)
    && db.foodTags <= db'.foodTags && db.foodAllergens <= db'.foodAllergens
    && (forall k :: k in db.foodServings ==> k in db'.foodServings && db'.foodServings[k] == db.foodServings[k])
  }

  /**
   * `insert_food`. A food whose description is already stored is refused;
   * a failing statement aborts with nothing written; otherwise every write
   * lands and the food comes back as given, with its new id.
   */
  function InsertFood(db: Db, food: Food, fault: Option<nat>): (r: (Db, Result<Food, InsertError>))
    ensures r.1.Err? ==> r.0 == db
    ensures r.1 == Err(DbError(0)) <==> fault == Some(0)
    ensures r.1 == Err(AlreadyExists(food.description)) <==>
      fault != Some(0) && FoodExistsByDescription(db, food.description)
    ensures r.1.Ok? <==> !FoodExistsByDescription(db, food.description) && !FaultHits(fault, food)
    ensures r.1.Err? && r.1.error.DbError? ==> FaultHits(fault, food)
    ensures r.1.Ok? ==> r.1.value == food.(id := Some(|db.foods| + 1))
    ensures r.1.Ok? ==> FoodExistsByDescription(r.0, food.description)
    ensures |db.foods| <= |r.0.foods| && r.0.foods[..|db.foods|] == db.foods
    ensures Keeps(db, r.0)
  {
    KeepsReflexive(db);
    if fault == Some(0) then (db, Err(DbError(0)))
    else if FoodExistsByDescription(db, food.description) then (db, Err(AlreadyExists(food.description)))
    else if FaultHits(fault, food) then (db, Err(DbError(fault.value)))
    else
      var staged := Stage(db, food);
      StageKeeps(db, food);
      assert staged.foods[|db.foods|].description == food.description;
      assert staged.foods[..|db.foods|] == db.foods;
      (staged, Ok(food.(id := Some(|db.foods| + 1))))
  }

  lemma LowerTextsGrow(t: seq<string>, texts: seq<string>, t': seq<string>)
    requires LowerTexts(t) && Extends(t, t')
    requires forall i :: |t| <= i < |t'| ==> t'[i] in Lowered(texts)
    ensures LowerTexts(t')
  {
    forall i | 0 <= i < |t'| ensures AsciiLower(t'[i]) == t'[i] {
      if i < |t| {
        assert t'[i] == t'[..|t|][i] == t[i];
      } else {
        var j :| 0 <= j < |texts| && Lowered(texts)[j] == t'[i];
        AsciiLowerIdempotent(texts[j]);
      }
    }
  }

  /** Link pairs stay in range when the new pairs all belong to the new food. */
  lemma LinksInRange(links: set<(nat, nat)>, n: nat, t: seq<string>, fid: nat, texts: seq<string>,
                     r: (seq<string>, set<(nat, nat)>))
    requires fid == n + 1
    requires forall p :: p in links ==> IdIn(p.0, n) && IdIn(p.1, |t|)
    requires Extends(t, r.0) && links <= r.1
    requires forall p :: p in r.1 && p !in links ==> p.0 == fid && IdIn(p.1, |r.0|) && r.0[p.1 - 1] in Lowered(texts)
    ensures forall p :: p in r.1 ==> IdIn(p.0, n + 1) && IdIn(p.1, |r.0|)
  {
  }

  lemma ServingKeysInRange(links: map<(nat, nat), F32>, n: nat, t: seq<string>, fid: nat, servings: seq<Serving>,
                           r: (seq<string>, map<(nat, nat), F32>))
    requires fid == n + 1
    requires forall k :: k in links ==> IdIn(k.0, n) && IdIn(k.1, |t|)
    requires Extends(t, r.0)
    requires forall k :: k in r.1 && k !in links ==>
      k.0 == fid && IdIn(k.1, |r.0|) && Serving(r.0[k.1 - 1], r.1[k]) in servings
    ensures forall k :: k in r.1 ==> IdIn(k.0, n + 1) && IdIn(k.1, |r.0|)
  {
  }

  lemma RowsOk(db: Db, s: Db, row: FoodRow)
    requires forall i :: 0 <= i < |db.foods| ==> RowOk(db.foods[i], db)
    requires s.foods == db.foods + [row] && RowOk(row, s)
    requires |db.images| <= |s.images| && |db.sources| <= |s.sources|
    ensures forall i :: 0 <= i < |s.foods| ==> RowOk(s.foods[i], s)
  {
    forall i | 0 <= i < |s.foods| ensures RowOk(s.foods[i], s) {
      if i < |db.foods| {
        assert s.foods[i] == db.foods[i];
      }
    }
  }

  lemma DescriptionsStayDistinct(rows: seq<FoodRow>, row: FoodRow)
    requires DistinctDescriptions(rows)
    requires forall i :: 0 <= i < |rows| ==> rows[i].description != row.description
    ensures DistinctDescriptions(rows + [row])
  {
    var r := rows + [row];
    forall i, j | 0 <= i < j < |r| ensures r[i].description != r[j].description {
      assert r[i] == rows[i];
      if j < |rows| { assert r[j] == rows[j]; }
    }
  }

  /** A successful insert keeps the store well-formed. */
  lemma StageWellFormed(db: Db, food: Food)
    requires WellFormed(db) && !FoodExistsByDescription(db, food.description)
    ensures WellFormed(Stage(db, food))
  {
    var s := Stage(db, food);
    var n := |db.foods|;
    var fid := n + 1;
    var (sources, sourceId) := Intern(db.sources, food.source);
    var (images, imageId) := Intern(db.images, food.imageUrl);
    var lt := LinkAll(db.tags, db.foodTags, fid, food.tags);
    var la := LinkAll(db.allergens, db.foodAllergens, fid, food.allergens);
    var sv := AddServings(db.servingDescriptions, db.foodServings, fid, food.servings);
    var row := RowOf(food, imageId, sourceId);
    assert s == Db(db.foods + [row], sources, images, lt.0, la.0, sv.0, lt.1, la.1, sv.1);
    DescriptionsStayDistinct(db.foods, row);
    RowsOk(db, s, row);
    LinksInRange(db.foodTags, n, db.tags, fid, food.tags, lt);
    LinksInRange(db.foodAllergens, n, db.allergens, fid, food.allergens, la);
    ServingKeysInRange(db.foodServings, n, db.servingDescriptions, fid, food.servings, sv);
    LowerTextsGrow(db.tags, food.tags, lt.0);
    LowerTextsGrow(db.allergens, food.allergens, la.0);
  }

  /** Food `fid` has a serving row for a description row holding the serving's name, with its weight. */
  ghost predicate ServingStored(t: seq<string>, links: map<(nat, nat), F32>, fid: nat, sv: Serving) {
    exists id :: IdIn(id, |t|) && (fid, id) in links && t[id - 1] == sv.name && links[(fid, id)] == sv.weight
  }

  /** The links the loop adds all belong to the new food; a link of any other food is there after exactly when before. */
  lemma LinkAllOwnLinks(t: seq<string>, links: set<(nat, nat)>, n: nat, fid: nat, texts: seq<string>)
    requires fid == n + 1 && forall p :: p in links ==> IdIn(p.0, n)
    ensures var r := LinkAll(t, links, fid, texts);
      && (forall p :: p in r.1 && p.0 == fid ==> IdIn(p.1, |r.0|) && r.0[p.1 - 1] in Lowered(texts))
      && (forall p: (nat, nat) :: p.0 != fid ==> (p in r.1 <==> p in links))
  {
  }

  /** The same for the serving loop, whose old keys also keep their weights. */
  lemma AddServingsOwnKeys(t: seq<string>, links: map<(nat, nat), F32>, n: nat, fid: nat, servings: seq<Serving>)
    requires fid == n + 1 && forall k :: k in links ==> IdIn(k.0, n)
    ensures var r := AddServings(t, links, fid, servings);
      && (forall k :: k in r.1 && k.0 == fid ==>
            IdIn(k.1, |r.0|) && Serving(r.0[k.1 - 1], r.1[k]) in servings)
      && (forall k: (nat, nat) :: k.0 != fid ==> (k in r.1 <==> k in links))
  {
  }

  /**
   * The food row a successful insert wrote: next id, the description,
   * `verified` defaulting to false, its image and source, and the 22 bound
   * nutrients.
   */
  lemma InsertedRow(db: Db, food: Food, fault: Option<nat>)
    requires InsertFood(db, food, fault).1.Ok?
    ensures var s := InsertFood(db, food, fault).0;
      && |s.foods| == |db.foods| + 1
      && var row := s.foods[|db.foods|];
      && row.description == food.description
      && row.verified == VerifiedOrFalse(food.verified)
      && IdIn(row.imageId, |s.images|) && s.images[row.imageId - 1] == food.imageUrl
      && IdIn(row.sourceId, |s.sources|) && s.sources[row.sourceId - 1] == food.source
      && row.nutrients == BoundNutrients(food.nutrients)
  {
    var s := InsertFood(db, food, fault).0;
    assert s == Stage(db, food);
    var (sources, sourceId) := Intern(db.sources, food.source);
    var (images, imageId) := Intern(db.images, food.imageUrl);
    assert s.foods == db.foods + [RowOf(food, imageId, sourceId)];
    assert s.sources == sources && s.images == images;
    assert s.foods[|db.foods|] == RowOf(food, imageId, sourceId);
  }

  /**
   * The tag and allergen links a successful insert wrote: the new food is
   * linked to every tag and allergen, lowered, and to nothing else; the
   * links of every other food are untouched.
   */
  lemma InsertedLinks(db: Db, food: Food, fault: Option<nat>)
    requires WellFormed(db) && InsertFood(db, food, fault).1.Ok?
    ensures var s := InsertFood(db, food, fault).0;
      var fid := |db.foods| + 1;
      && (forall j :: 0 <= j < |food.tags| ==> Linked(s.tags, s.foodTags, fid, AsciiLower(food.tags[j])))
      && (forall p :: p in s.foodTags && p.0 == fid ==> IdIn(p.1, |s.tags|) && s.tags[p.1 - 1] in Lowered(food.tags))
      && (forall p: (nat, nat) :: p.0 != fid ==> (p in s.foodTags <==> p in db.foodTags))
      && (forall j :: 0 <= j < |food.allergens| ==>
            Linked(s.allergens, s.foodAllergens, fid, AsciiLower(food.allergens[j])))
      && (forall p :: p in s.foodAllergens && p.0 == fid ==>
            IdIn(p.1, |s.allergens|) && s.allergens[p.1 - 1] in Lowered(food.allergens))
      && (forall p: (nat, nat) :: p.0 != fid ==> (p in s.foodAllergens <==> p in db.foodAllergens))
  {
    var fid := |db.foods| + 1;
    assert InsertFood(db, food, fault).0 == Stage(db, food);
    LinkAllOwnLinks(db.tags, db.foodTags, |db.foods|, fid, food.tags);
    LinkAllOwnLinks(db.allergens, db.foodAllergens, |db.foods|, fid, food.allergens);
  }

  /**
   * The serving rows a successful insert wrote: one for every serving name,
   * each carrying the weight of a serving of that name; the serving rows of
   * every other food are untouched.
   */
  lemma InsertedServings(db: Db, food: Food, fault: Option<nat>)
    requires WellFormed(db) && InsertFood(db, food, fault).1.Ok?
    ensures var s := InsertFood(db, food, fault).0;
      var fid := |db.foods| + 1;
      && (forall j :: 0 <= j < |food.servings| ==>
            ServingLinked(s.servingDescriptions, s.foodServings, fid, food.servings[j].name))
      && (forall k :: k in s.foodServings && k.0 == fid ==>
            IdIn(k.1, |s.servingDescriptions|)
            && Serving(s.servingDescriptions[k.1 - 1], s.foodServings[k]) in food.servings)
      && (forall k: (nat, nat) :: k.0 != fid ==> (k in s.foodServings <==> k in db.foodServings))
      && (forall k: (nat, nat) :: k.0 != fid && k in db.foodServings ==>
            k in s.foodServings && s.foodServings[k] == db.foodServings[k])
  {
    assert InsertFood(db, food, fault).0 == Stage(db, food);
    AddServingsOwnKeys(db.servingDescriptions, db.foodServings, |db.foods|, |db.foods| + 1, food.servings);
  }

  /** Serving rows that name only the food's servings, one per name, carry each serving's own weight when names are distinct. */
  lemma WeightsFromLinks(t: seq<string>, links: map<(nat, nat), F32>, fid: nat, servings: seq<Serving>)
    requires DistinctServingNames(servings)
    requires forall j :: 0 <= j < |servings| ==> ServingLinked(t, links, fid, servings[j].name)
    requires forall k :: k in links && k.0 == fid ==> IdIn(k.1, |t|) && Serving(t[k.1 - 1], links[k]) in servings
    ensures forall j :: 0 <= j < |servings| ==> ServingStored(t, links, fid, servings[j])
  {
    forall j | 0 <= j < |servings| ensures ServingStored(t, links, fid, servings[j]) {
      WeightOfServing(t, links, fid, servings, j);
    }
  }

  lemma WeightOfServing(t: seq<string>, links: map<(nat, nat), F32>, fid: nat, servings: seq<Serving>, j: nat)
    requires DistinctServingNames(servings) && j < |servings|
    requires ServingLinked(t, links, fid, servings[j].name)
    requires forall k :: k in links && k.0 == fid ==> IdIn(k.1, |t|) && Serving(t[k.1 - 1], links[k]) in servings
    ensures ServingStored(t, links, fid, servings[j])
  {
    var id :| IdIn(id, |t|) && (fid, id) in links && t[id - 1] == servings[j].name;
    var stored := Serving(t[id - 1], links[(fid, id)]);
    assert stored in servings;
    var i :| 0 <= i < |servings| && servings[i] == stored;
    assert servings[i].name == servings[j].name;
    assert i == j;
  }

  /** With serving names distinct (as the source's map guarantees), every serving is stored with its own weight. */
  lemma InsertedServingWeights(db: Db, food: Food, fault: Option<nat>)
    requires WellFormed(db) && InsertFood(db, food, fault).1.Ok?
    requires DistinctServingNames(food.servings)
    ensures var s := InsertFood(db, food, fault).0;
      forall j :: 0 <= j < |food.servings| ==>
        ServingStored(s.servingDescriptions, s.foodServings, |db.foods| + 1, food.servings[j])
  {
    InsertedServings(db, food, fault);
    var s := InsertFood(db, food, fault).0;
    WeightsFromLinks(s.servingDescriptions, s.foodServings, |db.foods| + 1, food.servings);
  }

  /** The `fiber` value never reaches the store: two foods that differ only in fiber leave the same store. */
  lemma FiberNotStored(db: Db, food: Food, fiber: F32, fault: Option<nat>)
    ensures InsertFood(db, food, fault).0
      == InsertFood(db, food.(nutrients := food.nutrients.(fiber := fiber)), fault).0
  {
    var other := food.(nutrients := food.nutrients.(fiber := fiber));
    assert BoundNutrients(other.nutrients) == BoundNutrients(food.nutrients);
    assert StatementCount(other) == StatementCount(food);
    assert Stage(db, other) == Stage(db, food);
  }

  /** Two tags that SQLite lowers alike give one tag row and one link, the same as the first alone. */
  lemma CaseVariantsCollapse(t: seq<string>, links: set<(nat, nat)>, fid: nat, a: string, b: string)
    requires AsciiLower(a) == AsciiLower(b)
    ensures LinkAll(t, links, fid, [a, b]) == LinkAll(t, links, fid, [a])
  {
    var x := AsciiLower(a);
    var (t1, id) := Intern(t, x);
    InternTwice(t, x);
    assert [a, b][1..] == [b];
    assert [b][1..] == [] && [a][1..] == [];
    assert links + {(fid, id)} + {(fid, id)} == links + {(fid, id)};
  }

  /** The same through a whole insert: "Vegan" and "VEGAN" as tags store what "Vegan" alone does. */
  lemma TagCaseVariantsCollapse(db: Db, food: Food, a: string, b: string)
    requires food.tags == [a, b] && AsciiLower(a) == AsciiLower(b)
    ensures InsertFood(db, food, None).0 == InsertFood(db, food.(tags := [a]), None).0
  {
    CaseVariantsCollapse(db.tags, db.foodTags, |db.foods| + 1, a, b);
  }

  /** Every insert, whatever its outcome, keeps the store well formed. */
  lemma InsertFoodWellFormed(db: Db, food: Food, fault: Option<nat>)
    requires WellFormed(db)
    ensures WellFormed(InsertFood(db, food, fault).0)
  {
    if InsertFood(db, food, fault).1.Ok? {
      StageWellFormed(db, food);
    }
  }

  /** A food whose description is stored already is refused, and nothing is written. */
  lemma DuplicateRefused(db: Db, food: Food, fault: Option<nat>)
    requires FoodExistsByDescription(db, food.description)
    ensures InsertFood(db, food, fault).1.Err?
    ensures InsertFood(db, food, fault).0 == db
  {
  }

  /** Adding rows never removes a description: what existed still exists. */
  lemma ExistsPersists(db: Db, db': Db, d: string)
    requires |db.foods| <= |db'.foods| && db'.foods[..|db.foods|] == db.foods
    requires FoodExistsByDescription(db, d)
    ensures FoodExistsByDescription(db', d)
  {
    var i :| 0 <= i < |db.foods| && db.foods[i].description == d;
    assert db'.foods[i] == db'.foods[..|db.foods|][i];
  }

  /** Without a fault, a description is stored after an insert exactly when it was before or is the food's own. */
  lemma ExistsAfterInsert(db: Db, food: Food, d: string)
    ensures FoodExistsByDescription(InsertFood(db, food, None).0, d)
      <==> FoodExistsByDescription(db, d) || d == food.description
  {
    var r := InsertFood(db, food, None);
    if r.1.Ok? {
      assert r.0.foods == db.foods + [RowOf(food, Intern(db.images, food.imageUrl).1, Intern(db.sources, food.source).1)];
      if FoodExistsByDescription(r.0, d) && d != food.description {
        var i :| 0 <= i < |r.0.foods| && r.0.foods[i].description == d;
        assert i < |db.foods| && db.foods[i] == r.0.foods[i];
      }
    }
  }

  /** The fault for the first insert of a run, and those for the rest. */
  function FirstFault(faults: seq<Option<nat>>): Option<nat> {
    if faults == [] then None else faults[0]
  }

  function LaterFaults(faults: seq<Option<nat>>): seq<Option<nat>> {
    if faults == [] then [] else faults[1..]
  }

  /** The number of inserts that succeeded. */
  function CountOk(outcomes: seq<Result<Food, InsertError>>): nat {
    if outcomes == [] then 0 else (if outcomes[0].Ok? then 1 else 0) + CountOk(outcomes[1..])
  }

  /** A failed insert that was no refusal: a statement of its transaction failed. */
  predicate Faulted(o: Result<Food, InsertError>) {
    o.Err? && o.error.DbError?
  }

  /**
   * The loop in `connect`: every loaded food is offered to `insert_food` in
   * order, and each outcome is only logged, so a failure never stops the
   * loop. `faults[j]`, when present, is the statement that fails during the
   * `j`-th insert. An insert only fails by a fault when one is injected into
   * it; a stored food comes back with an id; every food is stored afterwards
   * unless its own insert failed; one row is added per success.
   */
  function Ingest(db: Db, foods: seq<Food>, faults: seq<Option<nat>>): (r: (Db, seq<Result<Food, InsertError>>))
    decreases |foods|
    ensures |r.1| == |foods|
    ensures |db.foods| <= |r.0.foods| && r.0.foods[..|db.foods|] == db.foods
    ensures |r.0.foods| == |db.foods| + CountOk(r.1)
    ensures forall j :: 0 <= j < |foods| && Faulted(r.1[j]) ==> j < |faults| && faults[j].Some?
    ensures forall j :: 0 <= j < |foods| && r.1[j].Ok? ==>
      r.1[j].value.id.Some? && r.1[j].value.(id := foods[j].id) == foods[j]
    ensures forall j :: 0 <= j < |foods| ==>
      Faulted(r.1[j]) || FoodExistsByDescription(r.0, foods[j].description)
    ensures Keeps(db, r.0)
  {
    if foods == [] then
      KeepsReflexive(db);
      (db, [])
    else
      var (db1, o) := InsertFood(db, foods[0], FirstFault(faults));
      var (db2, os) := Ingest(db1, foods[1..], LaterFaults(faults));
      KeepsTransitive(db, db1, db2);
      IngestStepRows(db, db1, db2, o, os);
      IngestStepOutcomes(foods, faults, o, os);
      IngestStepStored(db1, db2, foods, o, os);
      (db2, [o] + os)
  }

  /** The staged writes only add rows, links and serving rows. */
  lemma StageKeeps(db: Db, food: Food)
    ensures Keeps(db, Stage(db, food))
  {
    var s := Stage(db, food);
    var fid := |db.foods| + 1;
    var (sources, sourceId) := Intern(db.sources, food.source);
    var (images, imageId) := Intern(db.images, food.imageUrl);
    var lt := LinkAll(db.tags, db.foodTags, fid, food.tags);
    var la := LinkAll(db.allergens, db.foodAllergens, fid, food.allergens);
    var sv := AddServings(db.servingDescriptions, db.foodServings, fid, food.servings);
    assert s == Db(db.foods + [RowOf(food, imageId, sourceId)], sources, images, lt.0, la.0, sv.0, lt.1, la.1, sv.1);
    assert s.foods[..|db.foods|] == db.foods;
    assert Extends(db.sources, sources) by {
      if food.source !in db.sources { assert (db.sources + [food.source])[..|db.sources|] == db.sources; }
      else { assert db.sources[..|db.sources|] == db.sources; }
    }
    assert Extends(db.images, images) by {
      if food.imageUrl !in db.images { assert (db.images + [food.imageUrl])[..|db.images|] == db.images; }
      else { assert db.images[..|db.images|] == db.images; }
    }
  }

  lemma KeepsReflexive(db: Db)
    ensures Keeps(db, db)
  {
    assert db.foods[..|db.foods|] == db.foods;
    assert db.sources[..|db.sources|] == db.sources;
    assert db.images[..|db.images|] == db.images;
    assert db.tags[..|db.tags|] == db.tags;
    assert db.allergens[..|db.allergens|] == db.allergens;
    assert db.servingDescriptions[..|db.servingDescriptions|] == db.servingDescriptions;
  }

  lemma KeepsTransitive(a: Db, b: Db, c: Db)
    requires Keeps(a, b) && Keeps(b, c)
    ensures Keeps(a, c)
  {
    assert c.foods[..|a.foods|] == c.foods[..|b.foods|][..|a.foods|];
    assert c.sources[..|a.sources|] == c.sources[..|b.sources|][..|a.sources|];
    assert c.images[..|a.images|] == c.images[..|b.images|][..|a.images|];
    assert c.tags[..|a.tags|] == c.tags[..|b.tags|][..|a.tags|];
    assert c.allergens[..|a.allergens|] == c.allergens[..|b.allergens|][..|a.allergens|];
    assert c.servingDescriptions[..|a.servingDescriptions|]
        == c.servingDescriptions[..|b.servingDescriptions|][..|a.servingDescriptions|];
  }

  lemma IngestStepRows(db: Db, db1: Db, db2: Db, o: Result<Food, InsertError>, os: seq<Result<Food, InsertError>>)
    requires |db.foods| <= |db1.foods| && db1.foods[..|db.foods|] == db.foods
    requires |db1.foods| == |db.foods| + (if o.Ok? then 1 else 0)
    requires |db1.foods| <= |db2.foods| && db2.foods[..|db1.foods|] == db1.foods
    requires |db2.foods| == |db1.foods| + CountOk(os)
    ensures |db.foods| <= |db2.foods| && db2.foods[..|db.foods|] == db.foods
    ensures |db2.foods| == |db.foods| + CountOk([o] + os)
  {
    assert db2.foods[..|db.foods|] == db2.foods[..|db1.foods|][..|db.foods|];
    assert ([o] + os)[1..] == os;
  }

  lemma IngestStepOutcomes(foods: seq<Food>, faults: seq<Option<nat>>, o: Result<Food, InsertError>,
                           os: seq<Result<Food, InsertError>>)
    requires foods != [] && |os| == |foods| - 1
    requires Faulted(o) ==> FirstFault(faults).Some?
    requires o.Ok? ==> o.value == foods[0].(id := o.value.id) && o.value.id.Some?
    requires forall j :: 0 <= j < |foods[1..]| && Faulted(os[j]) ==>
      j < |LaterFaults(faults)| && LaterFaults(faults)[j].Some?
    requires forall j :: 0 <= j < |foods[1..]| && os[j].Ok? ==>
      os[j].value.id.Some? && os[j].value.(id := foods[1..][j].id) == foods[1..][j]
    ensures forall j :: 0 <= j < |foods| && Faulted(([o] + os)[j]) ==> j < |faults| && faults[j].Some?
    ensures forall j :: 0 <= j < |foods| && ([o] + os)[j].Ok? ==>
      ([o] + os)[j].value.id.Some? && ([o] + os)[j].value.(id := foods[j].id) == foods[j]
  {
    forall j | 0 < j < |foods| ensures ([o] + os)[j] == os[j - 1] && foods[j] == foods[1..][j - 1] {
    }
  }

  lemma IngestStepStored(db1: Db, db2: Db, foods: seq<Food>, o: Result<Food, InsertError>,
                         os: seq<Result<Food, InsertError>>)
    requires foods != [] && |os| == |foods| - 1
    requires |db1.foods| <= |db2.foods| && db2.foods[..|db1.foods|] == db1.foods
    requires Faulted(o) || FoodExistsByDescription(db1, foods[0].description)
    requires forall j :: 0 <= j < |foods[1..]| ==>
      Faulted(os[j]) || FoodExistsByDescription(db2, foods[1..][j].description)
    ensures forall j :: 0 <= j < |foods| ==>
      Faulted(([o] + os)[j]) || FoodExistsByDescription(db2, foods[j].description)
  {
    if !Faulted(o) {
      ExistsPersists(db1, db2, foods[0].description);
    }
    forall j | 0 < j < |foods| ensures ([o] + os)[j] == os[j - 1] && foods[j] == foods[1..][j - 1] {
    }
  }

  /** A run of the loop keeps the store well formed. */
  lemma {:induction false} IngestWellFormed(db: Db, foods: seq<Food>, faults: seq<Option<nat>>)
    requires WellFormed(db)
    ensures WellFormed(Ingest(db, foods, faults).0)
    decreases |foods|
  {
    if foods != [] {
      InsertFoodWellFormed(db, foods[0], FirstFault(faults));
      IngestWellFormed(InsertFood(db, foods[0], FirstFault(faults)).0, foods[1..], LaterFaults(faults));
    }
  }

  /** Offering foods that are all stored already changes nothing, and every insert fails. */
  lemma {:induction false} IngestPresentIsNoOp(db: Db, foods: seq<Food>, faults: seq<Option<nat>>)
    requires forall j :: 0 <= j < |foods| ==> FoodExistsByDescription(db, foods[j].description)
    ensures Ingest(db, foods, faults).0 == db
    ensures forall j :: 0 <= j < |foods| ==> Ingest(db, foods, faults).1[j].Err?
    decreases |foods|
  {
    if foods != [] {
      IngestPresentIsNoOp(db, foods[1..], LaterFaults(faults));
      var os := Ingest(db, foods[1..], LaterFaults(faults)).1;
      var o := InsertFood(db, foods[0], FirstFault(faults)).1;
      assert Ingest(db, foods, faults).1 == [o] + os;
      AllFailedCons(o, os);
    }
  }

  lemma AllFailedCons(o: Result<Food, InsertError>, os: seq<Result<Food, InsertError>>)
    requires o.Err? && forall j :: 0 <= j < |os| ==> os[j].Err?
    ensures forall j :: 0 <= j < |[o] + os| ==> ([o] + os)[j].Err?
  {
    forall j | 0 < j < |[o] + os| ensures ([o] + os)[j] == os[j - 1] {
    }
  }

  /** A run without faults leaves every offered food stored. */
  lemma IngestStoresAll(db: Db, foods: seq<Food>)
    ensures forall j :: 0 <= j < |foods| ==> FoodExistsByDescription(Ingest(db, foods, []).0, foods[j].description)
  {
  }

  /**
   * Restarting is harmless: loading the same fixtures into the store the
   * first load produced adds nothing, whatever fails the second time.
   */
  lemma IngestTwice(db: Db, foods: seq<Food>, faults: seq<Option<nat>>)
    ensures var once := Ingest(db, foods, []).0;
      Ingest(once, foods, faults).0 == once
  {
    IngestStoresAll(db, foods);
    IngestPresentIsNoOp(Ingest(db, foods, []).0, foods, faults);
  }

  /** The description occurs among the first `j` foods. */
  predicate OfferedBefore(foods: seq<Food>, j: nat, d: string)
    requires j <= |foods|
  {
    exists k :: 0 <= k < j && foods[k].description == d
  }

  lemma OfferedBeforeCons(foods: seq<Food>, j: nat, d: string)
    requires 0 < j <= |foods|
    ensures OfferedBefore(foods, j, d) <==> foods[0].description == d || OfferedBefore(foods[1..], j - 1, d)
  {
    if OfferedBefore(foods, j, d) && foods[0].description != d {
      var k :| 0 <= k < j && foods[k].description == d;
      assert foods[1..][k - 1] == foods[k];
    }
    if OfferedBefore(foods[1..], j - 1, d) {
      var k :| 0 <= k < j - 1 && foods[1..][k].description == d;
      assert foods[k + 1] == foods[1..][k];
    }
  }

  /**
   * Without faults the loop stores exactly the first food of each
   * description not already stored: the `j`-th insert succeeds iff its
   * description is neither in the store nor offered earlier in the run.
   */
  lemma {:induction false} IngestOutcomes(db: Db, foods: seq<Food>)
    ensures forall j :: 0 <= j < |foods| ==>
      (Ingest(db, foods, []).1[j].Ok? <==>
        !FoodExistsByDescription(db, foods[j].description) && !OfferedBefore(foods, j, foods[j].description))
    decreases |foods|
  {
    if foods != [] {
      var (db1, o) := InsertFood(db, foods[0], None);
      var os := Ingest(db1, foods[1..], []).1;
      assert Ingest(db, foods, []).1 == [o] + os;
      IngestOutcomes(db1, foods[1..]);
      forall j | 0 <= j < |foods|
        ensures Ingest(db, foods, []).1[j].Ok? <==>
          !FoodExistsByDescription(db, foods[j].description) && !OfferedBefore(foods, j, foods[j].description)
      {
        var d := foods[j].description;
        if j > 0 {
          assert ([o] + os)[j] == os[j - 1];
          assert foods[1..][j - 1] == foods[j];
          ExistsAfterInsert(db, foods[0], d);
          OfferedBeforeCons(foods, j, d);
        }
      }
    }
  }

  /**
   * `connect` after the migrations: when the fixtures load, each food is
   * offered to the store in turn; when they do not, the store is left as it
   * is and the connection still succeeds. Rows are only ever added, and
   * with no faults every loaded food is stored afterwards.
   */
  function Connect(db: Db, loaded: Result<seq<Food>, string>, faults: seq<Option<nat>>): (r: Db)
    ensures loaded.Err? ==> r == db
    ensures |db.foods| <= |r.foods| && r.foods[..|db.foods|] == db.foods
    ensures Keeps(db, r)
    ensures loaded.Ok? && faults == [] ==>
      forall j :: 0 <= j < |loaded.value| ==> FoodExistsByDescription(r, loaded.value[j].description)
  {
    match loaded
    case Err(_) =>
      KeepsReflexive(db);
      db
    case Ok(foods) =>
      IngestStoresAll(db, foods);
      Ingest(db, foods, faults).0
  }

  lemma ConnectWellFormed(db: Db, loaded: Result<seq<Food>, string>, faults: seq<Option<nat>>)
    requires WellFormed(db)
    ensures WellFormed(Connect(db, loaded, faults))
  {
    if loaded.Ok? {
      IngestWellFormed(db, loaded.value, faults);
    }
  }

  /** Restarting the server over the store a clean start produced stores nothing new. */
  lemma ConnectTwice(db: Db, loaded: Result<seq<Food>, string>, faults: seq<Option<nat>>)
    ensures var once := Connect(db, loaded, []);
      Connect(once, loaded, faults) == once
  {
    if loaded.Ok? {
      IngestTwice(db, loaded.value, faults);
    }
  }
}
