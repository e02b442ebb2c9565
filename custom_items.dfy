/**
 * The custom item and recipe loader: which files of a plugin directory are
 * read, how an item row and a recipe row become database entries, and how
 * the item and recipe registries of the game's database accessors grow.
 *
 * Rows arrive already bound from their CSV files. Items and recipes are
 * records; the accessors' private dictionaries and the databases' arrays
 * are the fields of `Registry`. `ItemDatabaseAccessor.GetItem` is the map
 * `catalogue`, given by the caller.
 */
module CustomItems {
  import opened Common
  import opened Strings
  import opened IngredientRegex

  // ---------------------------------------------------------------------
  // Which files are read
  // ---------------------------------------------------------------------

  /** A file named `name` is read for `word`: the lower-cased name contains it and the name itself ends in ".csv". */
  predicate Selected(name: string, word: string)
  {
    Contains(ToLowerInvariant(name), word) && EndsWith(name, ".csv")
  }

  predicate IsItemFile(name: string)
  {
    Selected(name, "item")
  }

  predicate IsRecipeFile(name: string)
  {
    Selected(name, "recipe")
  }

  /** The word may be written in any case anywhere in the name. */
  lemma SelectedAnyCase(stem: string, w: string, tail: string, word: string)
    requires ToLowerInvariant(w) == word
    ensures Selected(stem + w + tail + ".csv", word)
  {
    var name := stem + w + tail + ".csv";
    ToLowerInvariantConcat(stem, w + tail + ".csv");
    ToLowerInvariantConcat(w, tail + ".csv");
    var low := ToLowerInvariant(name);
    var i := |stem|;
    assert low[i..i + |word|] == word by {
      assert low == ToLowerInvariant(stem) + (word + ToLowerInvariant(tail + ".csv"));
    }
    assert Occurs(low, word, i);
    ContainsIff(low, word);
    assert name[|name| - 4..] == ".csv";
  }

  /** The extension is compared with its case: a ".CSV" file is never read. */
  lemma UpperCaseExtensionIgnored(stem: string, word: string)
    ensures !Selected(stem + ".CSV", word)
  {
    var name := stem + ".CSV";
    assert name[|name| - 1] == 'V';
  }

  /** A file that is read for a word has that word, lower-cased, somewhere in its lower-cased name. */
  lemma SelectedHasWord(name: string, word: string)
    requires Selected(name, word)
    ensures exists i :: Occurs(ToLowerInvariant(name), word, i)
    ensures |name| >= 4 && name[|name| - 4..] == ".csv"
  {
    ContainsIff(ToLowerInvariant(name), word);
  }

  /** One CSV file: its name and its bound rows. */
  datatype CsvFile<R> = CsvFile(name: string, rows: seq<R>)

  /** The rows of the files read for `word`, file after file in enumeration order. */
  function SelectedRows<R>(files: seq<CsvFile<R>>, word: string): seq<R>
  {
    if files == [] then []
    else (if Selected(files[0].name, word) then files[0].rows else []) + SelectedRows(files[1..], word)
  }

  // ---------------------------------------------------------------------
  // Items
  // ---------------------------------------------------------------------

  /** The side of one cell of a sprite sheet, in pixels. */
  const CellSize: int := 33

  datatype Rect = Rect(x: int, y: int, width: int, height: int)

  predicate Inside(r: Rect, px: int, py: int)
  {
    r.x <= px < r.x + r.width && r.y <= py < r.y + r.height
  }

  /** The rectangle of the sprite in column `x`, row `y` of a sheet. */
  function SpriteCell(x: int, y: int): Rect
  {
    Rect(x * CellSize, y * CellSize, CellSize, CellSize)
  }

  /** The column and row of the cell holding a pixel. */
  function CellOf(px: int, py: int): (int, int)
  {
    (px / CellSize, py / CellSize)
  }

  /** The cells tile the sheet: a pixel lies in a cell exactly when that cell is the pixel's cell. */
  lemma CellsTile(x: int, y: int, px: int, py: int)
    ensures Inside(SpriteCell(x, y), px, py) <==> CellOf(px, py) == (x, y)
  {
    DivCell(px);
    DivCell(py);
  }

  lemma DivCell(p: int)
    ensures (p / CellSize) * CellSize <= p < (p / CellSize) * CellSize + CellSize
    ensures forall c {:trigger c * CellSize} :: c * CellSize <= p < c * CellSize + CellSize ==> c == p / CellSize
  {
  }

  datatype Sprite = Sprite(sheet: string, rect: Rect)

  /** One row of an item file. */
  datatype ItemRow = ItemRow(
    id: int, name: string, foodType: int, canBeUsedAsModifier: bool, containsAlcohol: bool,
    ingredientType: int, modifiers: seq<int>, sellPrice: int, canBeAged: bool, hasToBeAgedMeal: bool,
    appearsInOrders: bool, excludedFromTrends: bool, spriteSheetName: string, spriteX: int, spriteY: int)

  /** A game item (a `Food`), with the fields the loader sets. */
  datatype Item = Item(
    id: int, name: string, nameId: string, foodType: int, canBeAged: bool, canBeUsedAsModifier: bool,
    containsAlcohol: bool, ingredientType: int, modifiers: seq<int>, appearsInOrders: bool,
    silverPrice: int, translationByID: bool, excludedFromTrends: bool, hasToBeAgedMeal: bool,
    canBeSold: bool, held: bool, savedAsAPlaceable: bool,
    ingredientIcon: Sprite, icon: Sprite, sprite: Sprite)

  /** The display key of an item: its id, " - ", its name. */
  function NameId(id: int, name: string): string
  {
    IntToString(id) + " - " + name
  }

  /** The item a row describes. */
  function NewItem(row: ItemRow): Item
  {
    var cell := Sprite(row.spriteSheetName, SpriteCell(row.spriteX, row.spriteY));
    Item(
      id := row.id, name := row.name, nameId := NameId(row.id, row.name), foodType := row.foodType,
      canBeAged := row.canBeAged, canBeUsedAsModifier := row.canBeUsedAsModifier,
      containsAlcohol := row.containsAlcohol, ingredientType := row.ingredientType, modifiers := [],
      appearsInOrders := true, silverPrice := row.sellPrice, translationByID := false,
      excludedFromTrends := false, hasToBeAgedMeal := row.hasToBeAgedMeal,
      canBeSold := true, held := true, savedAsAPlaceable := false,
      ingredientIcon := cell, icon := cell, sprite := cell)
  }

  /** The first " - " of a name id follows the id's text, and the name is all that comes after it. */
  lemma NameIdSplits(id: int, name: string)
    ensures var t := NameId(id, name); var n := |IntToString(id)|;
      IndexOf(t, " - ") == Some(n) && t[..n] == IntToString(id) && t[n + 3..] == name
  {
    var t := NameId(id, name);
    var i := IntToString(id);
    IntToStringHasNoSpace(id);
    assert Occurs(t, " - ", |i|) by { assert t[|i|..|i| + 3] == " - "; }
    forall j | 0 <= j < |i| ensures !Occurs(t, " - ", j) {
      assert t[j] == i[j];
    }
  }

  /** Different items have different name ids: the name id gives back both the id and the name. */
  lemma NameIdInjective(a: int, n: string, b: int, m: string)
    requires NameId(a, n) == NameId(b, m)
    ensures a == b && n == m
  {
    NameIdSplits(a, n);
    NameIdSplits(b, m);
    IntToStringInjective(a, b);
  }

  /** `Int32.Parse` on the text before " - " gives the id back. */
  lemma NameIdParses(id: int, name: string)
    requires InInt32(id)
    ensures ParseInt32(NameId(id, name)[..|IntToString(id)|]) == Success(id)
  {
    NameIdSplits(id, name);
    ParseIntToString(id);
  }

  /** All three sprites of a new item are the row's cell of its sheet: exactly the pixels of that cell. */
  lemma NewItemSprites(row: ItemRow, px: int, py: int)
    ensures var it := NewItem(row);
      && it.icon == it.sprite == it.ingredientIcon && it.icon.sheet == row.spriteSheetName
      && (Inside(it.icon.rect, px, py) <==> CellOf(px, py) == (row.spriteX, row.spriteY))
  {
    CellsTile(row.spriteX, row.spriteY, px, py);
  }

  /** The modifiers, appears-in-orders and excluded-from-trends columns are read but not used. */
  lemma NewItemIgnoresColumns(row: ItemRow, modifiers: seq<int>, appears: bool, excluded: bool)
    ensures NewItem(row.(modifiers := modifiers, appearsInOrders := appears, excludedFromTrends := excluded))
         == NewItem(row)
    ensures NewItem(row).modifiers == [] && NewItem(row).appearsInOrders && !NewItem(row).excludedFromTrends
  {
  }

  // ---------------------------------------------------------------------
  // Recipes and their ingredients
  // ---------------------------------------------------------------------

  /** One row of a recipe file. */
  datatype RecipeRow = RecipeRow(
    id: int, name: string, itemId: int, page: int, recipeGroup: int, recipeIngredients: string,
    workstation: int, fuel: int, time: int, outputAmount: int)

  /** An ingredient of a recipe; `item` is None where the id names no item. */
  datatype RecipeIngredient = RecipeIngredient(item: Option<Item>, amount: int)

  datatype ItemAmount = ItemAmount(item: Item, amount: int)

  /** A game recipe, with the fields the loader sets. */
  datatype Recipe = Recipe(
    id: int, name: string, page: int, recipeGroup: int, fuel: int, time: int,
    output: ItemAmount, ingredientsNeeded: seq<RecipeIngredient>)

  /** `ItemDatabaseAccessor.GetItem`: the item with that id, or None (null). */
  function Lookup(catalogue: map<int, Item>, id: int): Option<Item>
  {
    if id in catalogue then Some(catalogue[id]) else None
  }

  /** The ingredients of a list of (id, amount) pairs, in the same order. */
  function ToIngredients(pairs: seq<(int, int)>, catalogue: map<int, Item>): (r: seq<RecipeIngredient>)
    ensures |r| == |pairs|
  {
    if pairs == [] then []
    else
      var last := pairs[|pairs| - 1];
      ToIngredients(pairs[..|pairs| - 1], catalogue) + [RecipeIngredient(Lookup(catalogue, last.0), last.1)]
  }

  /** Ingredient `i` is pair `i`: its amount, and its id's item, or None for an id with no item. */
  lemma {:induction false} ToIngredientsAt(pairs: seq<(int, int)>, catalogue: map<int, Item>, i: nat)
    requires i < |pairs|
    ensures ToIngredients(pairs, catalogue)[i].amount == pairs[i].1
    ensures ToIngredients(pairs, catalogue)[i].item.None? <==> pairs[i].0 !in catalogue
    ensures ToIngredients(pairs, catalogue)[i].item.Some? ==> ToIngredients(pairs, catalogue)[i].item.value == catalogue[pairs[i].0]
    decreases |pairs|
  {
    if i < |pairs| - 1 {
      ToIngredientsAt(pairs[..|pairs| - 1], catalogue, i);
    }
  }

  /** The ingredients a recipe row's ingredient text lists, or the error `Int32.Parse` throws. */
  function Ingredients(text: string, catalogue: map<int, Item>): Result<seq<RecipeIngredient>, ParseError>
  {
    match IngredientPairs(text)
    case Failure(e) => Failure(e)
    case Success(pairs) => Success(ToIngredients(pairs, catalogue))
  }

  /** A quoted item name between " - " and the amount does not change the ingredients. */
  lemma IngredientsIgnoreName(minus: nat, digits: string, name: string, amount: string, rest: string, catalogue: map<int, Item>)
    requires digits != [] && AllDigits(digits)
    requires amount != [] && AllDigits(amount)
    requires DigitFree(name)
    ensures Ingredients(Token(minus, digits, Some(name), amount) + rest, catalogue)
         == Ingredients(Token(minus, digits, None, amount) + rest, catalogue)
  {
    NameIsIgnored(minus, digits, name, amount, rest);
  }

  /** A list written as "<id> - (<amount>), " items reads back as those ingredients, in order. */
  lemma IngredientsOfWritten(ps: seq<(int, nat)>, catalogue: map<int, Item>)
    requires Writable(ps)
    ensures Ingredients(FormatIngredients(ps), catalogue) == Success(ToIngredients(AsPairs(ps), catalogue))
  {
    ParseFormatted(ps);
  }

  /** The recipe a row describes, for its output item and parsed ingredients. */
  function NewRecipe(row: RecipeRow, item: Item, ingredients: seq<RecipeIngredient>): Recipe
  {
    Recipe(
      id := row.id, name := item.name, page := row.page, recipeGroup := row.recipeGroup,
      fuel := row.fuel, time := row.time, output := ItemAmount(item, row.outputAmount),
      ingredientsNeeded := ingredients)
  }

  /**
   * `(acc, rest)` as one list: the pairs already read, then those still
   * to be read, unless reading the rest fails.
   */
  function Then(acc: seq<(int, int)>, rest: Result<seq<(int, int)>, ParseError>): Result<seq<(int, int)>, ParseError>
  {
    match rest
    case Failure(e) => Failure(e)
    case Success(ps) => Success(acc + ps)
  }

  /**
   * The ingredient loop of `AddRecipe`: every match of the pattern, left to
   * right, becomes an ingredient; its amount is parsed, then its id, and the
   * first text `Int32.Parse` rejects ends the loop with that error.
   */
  method ParseIngredientList(text: string, catalogue: map<int, Item>) returns (r: Result<seq<RecipeIngredient>, ParseError>)
    ensures r == Ingredients(text, catalogue)
  {
    var read: seq<(int, int)> := [];
    var ingredients: seq<RecipeIngredient> := [];
    var from := 0;
    var next := NextMatch(text, 0);
    assert IngredientPairs(text) == Then(read, PairsFrom(text, from)) by { ThenNone(PairsFrom(text, 0)); }
    while next.Some?
      invariant from <= |text| && next == NextMatch(text, from)
      invariant IngredientPairs(text) == Then(read, PairsFrom(text, from))
      invariant ingredients == ToIngredients(read, catalogue)
      decreases |text| - from
    {
      var m := next.value.1;
      NextMatchScan(text, from);
      var amount := ParseInt32(m.itemAmount);
      if amount.Failure? {
        ThenFails(text, read, amount.error, PairsFrom(text, m.end), catalogue);
        return Failure(amount.error);
      }
      var id := ParseInt32(m.itemId);
      if id.Failure? {
        ThenFails(text, read, id.error, PairsFrom(text, m.end), catalogue);
        return Failure(id.error);
      }
      ingredients := ingredients + [RecipeIngredient(Lookup(catalogue, id.value), amount.value)];
      ThenStep(read, (id.value, amount.value), PairsFrom(text, m.end));
      var before := read;
      read := read + [(id.value, amount.value)];
      assert read[..|read| - 1] == before;
      from := m.end;
      next := NextMatch(text, from);
    }
    NextMatchScan(text, from);
    ThenDone(text, read, catalogue);
    r := Success(ingredients);
  }

  lemma ThenNone(rest: Result<seq<(int, int)>, ParseError>)
    ensures Then([], rest) == rest
  {
    if rest.Success? {
      assert [] + rest.value == rest.value;
    }
  }

  /** Once the scan has nothing left, the list read so far is the whole list. */
  lemma ThenDone(text: string, read: seq<(int, int)>, catalogue: map<int, Item>)
    requires IngredientPairs(text) == Then(read, Success([]))
    ensures Ingredients(text, catalogue) == Success(ToIngredients(read, catalogue))
  {
    assert read + [] == read;
  }

  /** A number rejected at the next match fails the whole list. */
  lemma ThenFails(text: string, read: seq<(int, int)>, e: ParseError, rest: Result<seq<(int, int)>, ParseError>, catalogue: map<int, Item>)
    requires IngredientPairs(text) == Then(read, Cons(Failure(e), rest))
    ensures Ingredients(text, catalogue) == Failure(e)
  {
  }

  lemma ThenStep(acc: seq<(int, int)>, pair: (int, int), rest: Result<seq<(int, int)>, ParseError>)
    ensures Then(acc, Cons(Success(pair), rest)) == Then(acc + [pair], rest)
  {
    if rest.Success? {
      assert acc + ([pair] + rest.value) == acc + [pair] + rest.value;
    }
  }

  // ---------------------------------------------------------------------
  // The registries, as values
  // ---------------------------------------------------------------------

  /** A dictionary field that may still be null, read as empty. */
  function OrEmpty<K, V>(m: Option<map<K, V>>): map<K, V>
  {
    if m.None? then map[] else m.value
  }

  /**
   * What the loader reads and writes of the game: the item and recipe
   * dictionaries of the two database accessors (None while null), the item
   * and recipe arrays of the two databases, and the ids of the recipes
   * unlocked and marked favourite.
   */
  datatype Db = Db(
    itemMap: Option<map<int, Item>>, items: seq<Item>,
    recipeMap: Option<map<int, Recipe>>, recipes: seq<Recipe>,
    unlocked: seq<int>, favourites: seq<int>)

  /** Every dictionary entry is stored under its own id. */
  predicate Keyed(db: Db)
  {
    && (forall k :: k in OrEmpty(db.itemMap) ==> OrEmpty(db.itemMap)[k].id == k)
    && (forall k :: k in OrEmpty(db.recipeMap) ==> OrEmpty(db.recipeMap)[k].id == k)
  }

  /**
   * `AddItem`: the item dictionary is created if null; an id already in it
   * gives back the item stored there; otherwise the row's item is appended
   * to the item array and added to the dictionary.
   */
  function AddItemTo(db: Db, row: ItemRow): (Db, Item)
  {
    var m := OrEmpty(db.itemMap);
    if row.id in m then (db.(itemMap := Some(m)), m[row.id])
    else
      var item := NewItem(row);
      (db.(itemMap := Some(m[row.id := item]), items := db.items + [item]), item)
  }

  /** An id already registered returns the registered item and changes nothing. */
  lemma AddItemDuplicate(db: Db, row: ItemRow)
    requires db.itemMap.Some? && row.id in db.itemMap.value
    ensures AddItemTo(db, row) == (db, db.itemMap.value[row.id])
  {
  }

  /** A fresh id adds exactly one entry, appends the new item at the end, and touches nothing else. */
  lemma AddItemFresh(db: Db, row: ItemRow)
    requires row.id !in OrEmpty(db.itemMap)
    ensures var (db', item) := AddItemTo(db, row);
      && item == NewItem(row) && item.id == row.id && item.nameId == NameId(row.id, row.name)
      && db'.itemMap.Some? && db'.itemMap.value.Keys == OrEmpty(db.itemMap).Keys + {row.id}
      && db'.itemMap.value[row.id] == item
      && (forall k :: k in OrEmpty(db.itemMap) ==> db'.itemMap.value[k] == OrEmpty(db.itemMap)[k])
      && db'.items == db.items + [item]
      && db'.recipeMap == db.recipeMap && db'.recipes == db.recipes
      && db'.unlocked == db.unlocked && db'.favourites == db.favourites
  {
  }

  /** The first item added while the dictionary is still null is stored: the dictionary then holds it alone. */
  lemma AddItemLazyInit(db: Db, row: ItemRow)
    requires db.itemMap.None?
    ensures AddItemTo(db, row).0.itemMap == Some(map[row.id := NewItem(row)])
    ensures AddItemTo(db, row).0.items == db.items + [NewItem(row)]
  {
  }

  /** Adding an item keeps every entry under its own id, and the item returned carries the row's id. */
  lemma AddItemKeyed(db: Db, row: ItemRow)
    requires Keyed(db)
    ensures Keyed(AddItemTo(db, row).0) && AddItemTo(db, row).1.id == row.id
  {
  }

  /**
   * `AddRecipe`: the recipe dictionary is created if null; an id already in
   * it gives back the recipe stored there; otherwise the ingredient text is
   * parsed (a rejected number is an exception, after which only the
   * dictionary's creation remains), and the new recipe is added to the
   * dictionary, appended to the recipe array, unlocked and marked favourite.
   */
  function AddRecipeTo(db: Db, row: RecipeRow, item: Item, catalogue: map<int, Item>): (Db, Result<Recipe, ParseError>)
  {
    var m := OrEmpty(db.recipeMap);
    var created := db.(recipeMap := Some(m));
    if row.id in m then (created, Success(m[row.id]))
    else
      match Ingredients(row.recipeIngredients, catalogue)
      case Failure(e) => (created, Failure(e))
      case Success(ingredients) =>
        var recipe := NewRecipe(row, item, ingredients);
        (created.(recipeMap := Some(m[row.id := recipe]), recipes := db.recipes + [recipe],
                  unlocked := db.unlocked + [row.id], favourites := db.favourites + [row.id]),
         Success(recipe))
  }

  /** An id already registered returns the registered recipe, parses nothing and changes nothing. */
  lemma AddRecipeDuplicate(db: Db, row: RecipeRow, item: Item, catalogue: map<int, Item>)
    requires db.recipeMap.Some? && row.id in db.recipeMap.value
    ensures AddRecipeTo(db, row, item, catalogue) == (db, Success(db.recipeMap.value[row.id]))
  {
  }

  /**
   * A fresh id whose ingredient text parses adds one recipe: output the item
   * in the row's amount, named after the item, with the parsed ingredients;
   * it is appended, unlocked and made a favourite, and nothing else changes.
   */
  lemma AddRecipeFresh(db: Db, row: RecipeRow, item: Item, catalogue: map<int, Item>)
    requires row.id !in OrEmpty(db.recipeMap)
    requires Ingredients(row.recipeIngredients, catalogue).Success?
    ensures var (db', r) := AddRecipeTo(db, row, item, catalogue);
      && r.Success? && r.value.id == row.id
      && r.value.output == ItemAmount(item, row.outputAmount) && r.value.name == item.name
      && r.value.ingredientsNeeded == Ingredients(row.recipeIngredients, catalogue).value
      && db'.recipeMap.Some? && db'.recipeMap.value.Keys == OrEmpty(db.recipeMap).Keys + {row.id}
      && db'.recipeMap.value[row.id] == r.value
      && (forall k :: k in OrEmpty(db.recipeMap) ==> db'.recipeMap.value[k] == OrEmpty(db.recipeMap)[k])
      && db'.recipes == db.recipes + [r.value]
      && db'.unlocked == db.unlocked + [row.id] && db'.favourites == db.favourites + [row.id]
      && db'.itemMap == db.itemMap && db'.items == db.items
  {
  }

  /** An ingredient text that `Int32.Parse` rejects adds no recipe: at most the dictionary is created. */
  lemma AddRecipeRejected(db: Db, row: RecipeRow, item: Item, catalogue: map<int, Item>)
    requires row.id !in OrEmpty(db.recipeMap)
    requires Ingredients(row.recipeIngredients, catalogue).Failure?
    ensures AddRecipeTo(db, row, item, catalogue)
         == (db.(recipeMap := Some(OrEmpty(db.recipeMap))), Failure(Ingredients(row.recipeIngredients, catalogue).error))
  {
  }

  /** Adding a recipe keeps every entry under its own id, and a recipe returned carries the row's id. */
  lemma AddRecipeKeyed(db: Db, row: RecipeRow, item: Item, catalogue: map<int, Item>)
    requires Keyed(db)
    ensures Keyed(AddRecipeTo(db, row, item, catalogue).0)
    ensures AddRecipeTo(db, row, item, catalogue).1.Success? ==> AddRecipeTo(db, row, item, catalogue).1.value.id == row.id
  {
  }

  // ---------------------------------------------------------------------
  // Loading whole files
  // ---------------------------------------------------------------------

  /**
   * Why loading stops: the caller's `Dictionary.Add` meets an id it already
   * holds, or `Int32.Parse` rejects a number of an ingredient list.
   */
  datatype LoadError = DuplicateKey(id: int) | BadNumber(error: ParseError)

  /**
   * `AddItems`: row after row, the item is added to the registry and then
   * to the caller's dictionary `out`; an id `out` already holds throws,
   * leaving the registry with that row's item and `out` without it.
   */
  function LoadItems(db: Db, out: map<int, Item>, rows: seq<ItemRow>): (Db, map<int, Item>, Outcome<LoadError>)
    decreases |rows|
  {
    if rows == [] then (db, out, Pass)
    else
      var (db1, item) := AddItemTo(db, rows[0]);
      if rows[0].id in out then (db1, out, Fail(DuplicateKey(rows[0].id)))
      else LoadItems(db1, out[rows[0].id := item], rows[1..])
  }

  /** Loading goes on with more rows only if it has not failed. */
  function ContinueItems(r: (Db, map<int, Item>, Outcome<LoadError>), rows: seq<ItemRow>): (Db, map<int, Item>, Outcome<LoadError>)
  {
    if r.2.Fail? then r else LoadItems(r.0, r.1, rows)
  }

  /**
   * `AddRecipes`: row after row, a row whose output item does not exist is
   * skipped; otherwise the recipe is added to the registry and then to the
   * caller's dictionary, stopping at the first rejected number or at an id
   * `out` already holds.
   */
  function LoadRecipes(db: Db, out: map<int, Recipe>, rows: seq<RecipeRow>, catalogue: map<int, Item>): (Db, map<int, Recipe>, Outcome<LoadError>)
    decreases |rows|
  {
    if rows == [] then (db, out, Pass)
    else
      var row := rows[0];
      if row.itemId !in catalogue then LoadRecipes(db, out, rows[1..], catalogue)
      else
        var (db1, r) := AddRecipeTo(db, row, catalogue[row.itemId], catalogue);
        if r.Failure? then (db1, out, Fail(BadNumber(r.error)))
        else if row.id in out then (db1, out, Fail(DuplicateKey(row.id)))
        else LoadRecipes(db1, out[row.id := r.value], rows[1..], catalogue)
  }

  function ContinueRecipes(r: (Db, map<int, Recipe>, Outcome<LoadError>), rows: seq<RecipeRow>, catalogue: map<int, Item>): (Db, map<int, Recipe>, Outcome<LoadError>)
  {
    if r.2.Fail? then r else LoadRecipes(r.0, r.1, rows, catalogue)
  }

  /** The ids in `ids` are pairwise different and none is in `seen`. */
  predicate DistinctFrom(ids: seq<int>, seen: set<int>)
  {
    && (forall i :: 0 <= i < |ids| ==> ids[i] !in seen)
    && (forall i, j :: 0 <= i < j < |ids| ==> ids[i] != ids[j])
  }

  lemma DistinctFromCons(ids: seq<int>, seen: set<int>)
    requires ids != []
    ensures DistinctFrom(ids, seen) <==> ids[0] !in seen && DistinctFrom(ids[1..], seen + {ids[0]})
  {
    if ids[0] !in seen && DistinctFrom(ids[1..], seen + {ids[0]}) {
      forall i, j | 0 <= i < j < |ids| ensures ids[i] != ids[j] {
        if i > 0 { assert ids[1..][i - 1] == ids[i] && ids[1..][j - 1] == ids[j]; }
        else { assert ids[1..][j - 1] == ids[j]; }
      }
    }
    if DistinctFrom(ids, seen) {
      forall i | 0 <= i < |ids[1..]| ensures ids[1..][i] !in seen + {ids[0]} {
        assert ids[1..][i] == ids[i + 1];
      }
    }
  }

  function ItemIds(rows: seq<ItemRow>): (ids: seq<int>)
    ensures |ids| == |rows| && forall i :: 0 <= i < |rows| ==> ids[i] == rows[i].id
  {
    seq(|rows|, i requires 0 <= i < |rows| => rows[i].id)
  }

  /** The ids of the rows whose output item exists, in order. */
  function KnownIds(rows: seq<RecipeRow>, catalogue: map<int, Item>): seq<int>
  {
    if rows == [] then []
    else (if rows[0].itemId in catalogue then [rows[0].id] else []) + KnownIds(rows[1..], catalogue)
  }

  /** Loading items succeeds exactly when the rows' ids are pairwise different and new to the caller's dictionary. */
  lemma {:induction false} LoadItemsPasses(db: Db, out: map<int, Item>, rows: seq<ItemRow>)
    ensures LoadItems(db, out, rows).2 == Pass <==> DistinctFrom(ItemIds(rows), out.Keys)
    ensures LoadItems(db, out, rows).2.Fail? ==> LoadItems(db, out, rows).2.error.DuplicateKey?
    decreases |rows|
  {
    if rows != [] {
      var ids := ItemIds(rows);
      DistinctFromCons(ids, out.Keys);
      var (db1, item) := AddItemTo(db, rows[0]);
      var out1 := out[rows[0].id := item];
      LoadItemsPasses(db1, out1, rows[1..]);
      assert ItemIds(rows[1..]) == ids[1..];
      assert out1.Keys == out.Keys + {ids[0]};
    }
  }

  /**
   * Loading items never replaces an entry of the registry's dictionary,
   * only appends to the item array, keeps entries under their own ids, and
   * leaves the recipe side alone.
   */
  lemma {:induction false} LoadItemsRegistry(db: Db, out: map<int, Item>, rows: seq<ItemRow>)
    ensures var db' := LoadItems(db, out, rows).0;
      && (forall k :: k in OrEmpty(db.itemMap) ==> k in OrEmpty(db'.itemMap) && OrEmpty(db'.itemMap)[k] == OrEmpty(db.itemMap)[k])
      && db.items <= db'.items
      && db'.recipeMap == db.recipeMap && db'.recipes == db.recipes
      && db'.unlocked == db.unlocked && db'.favourites == db.favourites
      && (Keyed(db) ==> Keyed(db'))
    decreases |rows|
  {
    if rows != [] {
      var (db1, item) := AddItemTo(db, rows[0]);
      LoadItemsRegistry(db1, out[rows[0].id := item], rows[1..]);
    }
  }

  /** The ids of a list, as a set. */
  function IdSet(ids: seq<int>): set<int>
  {
    set k | k in ids
  }

  lemma IdSetCons(ids: seq<int>)
    requires ids != []
    ensures IdSet(ids) == {ids[0]} + IdSet(ids[1..])
  {
    assert forall k :: k in ids <==> k == ids[0] || k in ids[1..];
  }

  /**
   * What the caller's dictionary ends up holding: its old entries, and for
   * every id added the item the registry holds under that id.
   */
  lemma {:induction false} LoadItemsCallerMap(db: Db, out: map<int, Item>, rows: seq<ItemRow>)
    ensures var (db', out', st) := LoadItems(db, out, rows);
      && (forall k :: k in out ==> k in out' && out'[k] == out[k])
      && (forall k :: k in out' && k !in out ==> k in OrEmpty(db'.itemMap) && out'[k] == OrEmpty(db'.itemMap)[k])
    decreases |rows|
  {
    if rows != [] && rows[0].id !in out {
      var (db1, item) := AddItemTo(db, rows[0]);
      var out1 := out[rows[0].id := item];
      LoadItemsCallerMap(db1, out1, rows[1..]);
      LoadItemsRegistry(db1, out1, rows[1..]);
    }
  }

  /** After a complete load the caller's dictionary holds its old ids and the rows' ids, no others. */
  lemma {:induction false} LoadItemsKeys(db: Db, out: map<int, Item>, rows: seq<ItemRow>)
    requires LoadItems(db, out, rows).2 == Pass
    ensures LoadItems(db, out, rows).1.Keys == out.Keys + IdSet(ItemIds(rows))
    decreases |rows|
  {
    if rows != [] {
      var (db1, item) := AddItemTo(db, rows[0]);
      LoadItemsKeys(db1, out[rows[0].id := item], rows[1..]);
      IdSetCons(ItemIds(rows));
      assert ItemIds(rows)[1..] == ItemIds(rows[1..]);
    }
  }

  /** Loading two lists of rows is loading the first, then, unless it failed, the second. */
  lemma {:induction false} LoadItemsAppend(db: Db, out: map<int, Item>, a: seq<ItemRow>, b: seq<ItemRow>)
    ensures LoadItems(db, out, a + b) == ContinueItems(LoadItems(db, out, a), b)
    decreases |a|
  {
    if a == [] {
      assert a + b == b;
    } else {
      var (db1, item) := AddItemTo(db, a[0]);
      assert (a + b)[0] == a[0] && (a + b)[1..] == a[1..] + b;
      LoadItemsAppend(db1, out[a[0].id := item], a[1..], b);
    }
  }

  /** A row whose output item does not exist is skipped: nothing is added and nothing is parsed. */
  lemma LoadRecipesSkipsUnknown(db: Db, out: map<int, Recipe>, row: RecipeRow, rest: seq<RecipeRow>, catalogue: map<int, Item>)
    requires row.itemId !in catalogue
    ensures LoadRecipes(db, out, [row] + rest, catalogue) == LoadRecipes(db, out, rest, catalogue)
  {
    assert ([row] + rest)[0] == row && ([row] + rest)[1..] == rest;
  }

  /**
   * Loading recipes never replaces an entry of the registry's dictionary,
   * only appends to the recipe, unlocked and favourite lists, keeps entries
   * under their own ids, and leaves the item side alone.
   */
  lemma {:induction false} LoadRecipesRegistry(db: Db, out: map<int, Recipe>, rows: seq<RecipeRow>, catalogue: map<int, Item>)
    ensures var db' := LoadRecipes(db, out, rows, catalogue).0;
      && (forall k :: k in OrEmpty(db.recipeMap) ==> k in OrEmpty(db'.recipeMap) && OrEmpty(db'.recipeMap)[k] == OrEmpty(db.recipeMap)[k])
      && db.recipes <= db'.recipes && db.unlocked <= db'.unlocked && db.favourites <= db'.favourites
      && db'.itemMap == db.itemMap && db'.items == db.items
      && (Keyed(db) ==> Keyed(db'))
    decreases |rows|
  {
    if rows != [] && rows[0].itemId in catalogue {
      var (db1, r) := AddRecipeTo(db, rows[0], catalogue[rows[0].itemId], catalogue);
      if r.Success? && rows[0].id !in out {
        LoadRecipesRegistry(db1, out[rows[0].id := r.value], rows[1..], catalogue);
      }
    } else if rows != [] {
      LoadRecipesRegistry(db, out, rows[1..], catalogue);
    }
  }

  /**
   * What the caller's dictionary ends up holding: its old entries, and for
   * every id added the recipe the registry holds under that id.
   */
  lemma {:induction false} LoadRecipesCallerMap(db: Db, out: map<int, Recipe>, rows: seq<RecipeRow>, catalogue: map<int, Item>)
    ensures var (db', out', st) := LoadRecipes(db, out, rows, catalogue);
      && (forall k :: k in out ==> k in out' && out'[k] == out[k])
      && (forall k :: k in out' && k !in out ==> k in OrEmpty(db'.recipeMap) && out'[k] == OrEmpty(db'.recipeMap)[k])
    decreases |rows|
  {
    if rows != [] {
      var row := rows[0];
      if row.itemId !in catalogue {
        LoadRecipesCallerMap(db, out, rows[1..], catalogue);
      } else {
        var (db1, r) := AddRecipeTo(db, row, catalogue[row.itemId], catalogue);
        if r.Success? && row.id !in out {
          var out1 := out[row.id := r.value];
          LoadRecipesCallerMap(db1, out1, rows[1..], catalogue);
          LoadRecipesRegistry(db1, out1, rows[1..], catalogue);
        }
      }
    }
  }

  /** After a complete load the caller's dictionary holds its old ids and those of the rows whose output item exists. */
  lemma {:induction false} LoadRecipesKeys(db: Db, out: map<int, Recipe>, rows: seq<RecipeRow>, catalogue: map<int, Item>)
    requires LoadRecipes(db, out, rows, catalogue).2 == Pass
    ensures LoadRecipes(db, out, rows, catalogue).1.Keys == out.Keys + IdSet(KnownIds(rows, catalogue))
    decreases |rows|
  {
    if rows != [] {
      var row := rows[0];
      if row.itemId !in catalogue {
        LoadRecipesKeys(db, out, rows[1..], catalogue);
        assert KnownIds(rows, catalogue) == KnownIds(rows[1..], catalogue);
      } else {
        var (db1, r) := AddRecipeTo(db, row, catalogue[row.itemId], catalogue);
        LoadRecipesKeys(db1, out[row.id := r.value], rows[1..], catalogue);
        var known := KnownIds(rows, catalogue);
        assert known == [row.id] + KnownIds(rows[1..], catalogue);
        IdSetCons(known);
        assert known[1..] == KnownIds(rows[1..], catalogue);
      }
    }
  }

  /**
   * A caller's dictionary that already holds a loaded id always fails the
   * load: a complete load means the ids of the rows with an existing
   * output item were pairwise different and new to it.
   */
  lemma {:induction false} LoadRecipesPassDistinct(db: Db, out: map<int, Recipe>, rows: seq<RecipeRow>, catalogue: map<int, Item>)
    requires LoadRecipes(db, out, rows, catalogue).2 == Pass
    ensures DistinctFrom(KnownIds(rows, catalogue), out.Keys)
    decreases |rows|
  {
    if rows != [] {
      var row := rows[0];
      var known := KnownIds(rows, catalogue);
      if row.itemId !in catalogue {
        LoadRecipesPassDistinct(db, out, rows[1..], catalogue);
        assert known == KnownIds(rows[1..], catalogue);
      } else {
        var (db1, r) := AddRecipeTo(db, row, catalogue[row.itemId], catalogue);
        var out1 := out[row.id := r.value];
        LoadRecipesPassDistinct(db1, out1, rows[1..], catalogue);
        assert known == [row.id] + KnownIds(rows[1..], catalogue);
        assert out1.Keys == out.Keys + {row.id};
        DistinctFromCons(known, out.Keys);
        assert known[1..] == KnownIds(rows[1..], catalogue);
      }
    }
  }

  /** Loading two lists of recipe rows is loading the first, then, unless it failed, the second. */
  lemma {:induction false} LoadRecipesAppend(db: Db, out: map<int, Recipe>, a: seq<RecipeRow>, b: seq<RecipeRow>, catalogue: map<int, Item>)
    ensures LoadRecipes(db, out, a + b, catalogue) == ContinueRecipes(LoadRecipes(db, out, a, catalogue), b, catalogue)
    decreases |a|
  {
    if a == [] {
      assert a + b == b;
    } else {
      assert (a + b)[0] == a[0] && (a + b)[1..] == a[1..] + b;
      if a[0].itemId !in catalogue {
        LoadRecipesAppend(db, out, a[1..], b, catalogue);
      } else {
        var (db1, r) := AddRecipeTo(db, a[0], catalogue[a[0].itemId], catalogue);
        if r.Success? && a[0].id !in out {
          LoadRecipesAppend(db1, out[a[0].id := r.value], a[1..], b, catalogue);
        }
      }
    }
  }

  // ---------------------------------------------------------------------
  // The registries, in place
  // ---------------------------------------------------------------------

  /**
   * The item and recipe registries as the loader changes them: the two
   * accessors' dictionaries, the two databases' arrays, and the unlocked
   * and favourite recipe lists of the recipe manager.
   */
  class Registry {
    var itemMap: Option<map<int, Item>>
    var items: seq<Item>
    var recipeMap: Option<map<int, Recipe>>
    var recipes: seq<Recipe>
    var unlocked: seq<int>
    var favourites: seq<int>

    function State(): Db
      reads this
    {
      Db(itemMap, items, recipeMap, recipes, unlocked, favourites)
    }

    /**
     * A view of the game's registries as the loader finds them: each
     * dictionary null or already holding entries, the databases' arrays,
     * and the player's unlocked and favourite recipes.
     */
    constructor(itemMap0: Option<map<int, Item>>, items0: seq<Item>,
                recipeMap0: Option<map<int, Recipe>>, recipes0: seq<Recipe>,
                unlocked0: seq<int>, favourites0: seq<int>)
      ensures State() == Db(itemMap0, items0, recipeMap0, recipes0, unlocked0, favourites0)
    {
      itemMap := itemMap0;
      items := items0;
      recipeMap := recipeMap0;
      recipes := recipes0;
      unlocked := unlocked0;
      favourites := favourites0;
    }

    method AddItem(row: ItemRow) returns (item: Item)
      modifies this
      ensures (State(), item) == AddItemTo(old(State()), row)
    {
      if itemMap.None? {
        itemMap := Some(map[]);
      }
      var m := itemMap.value;
      if row.id in m {
        return m[row.id];
      }
      item := NewItem(row);
      items := items + [item];
      itemMap := Some(m[row.id := item]);
    }

    method AddRecipe(row: RecipeRow, item: Item, catalogue: map<int, Item>) returns (r: Result<Recipe, ParseError>)
      modifies this
      ensures (State(), r) == AddRecipeTo(old(State()), row, item, catalogue)
    {
      if recipeMap.None? {
        recipeMap := Some(map[]);
      }
      var m := recipeMap.value;
      if row.id in m {
        return Success(m[row.id]);
      }
      var ingredients := ParseIngredientList(row.recipeIngredients, catalogue);
      if ingredients.Failure? {
        return Failure(ingredients.error);
      }
      var recipe := NewRecipe(row, item, ingredients.value);
      recipeMap := Some(m[recipe.id := recipe]);
      recipes := recipes + [recipe];
      unlocked := unlocked + [recipe.id];
      favourites := favourites + [recipe.id];
      r := Success(recipe);
    }

    /** The rows of one item file, added one by one to the registry and to the caller's dictionary `out`. */
    method AddItems(rows: seq<ItemRow>, out: map<int, Item>) returns (result: map<int, Item>, status: Outcome<LoadError>)
      modifies this
      ensures (State(), result, status) == LoadItems(old(State()), out, rows)
    {
      result := out;
      var i := 0;
      while i < |rows|
        invariant i <= |rows|
        invariant LoadItems(old(State()), out, rows) == LoadItems(State(), result, rows[i..])
      {
        assert rows[i..][0] == rows[i] && rows[i..][1..] == rows[i + 1..];
        var item := AddItem(rows[i]);
        if rows[i].id in result {
          return result, Fail(DuplicateKey(rows[i].id));
        }
        result := result[rows[i].id := item];
        i := i + 1;
      }
      status := Pass;
    }

    /**
     * The rows of one recipe file: a row whose output item `catalogue` does
     * not hold is skipped, every other row's recipe is added to the registry
     * and to the caller's dictionary `out`.
     */
    method AddRecipes(rows: seq<RecipeRow>, out: map<int, Recipe>, catalogue: map<int, Item>) returns (result: map<int, Recipe>, status: Outcome<LoadError>)
      modifies this
      ensures (State(), result, status) == LoadRecipes(old(State()), out, rows, catalogue)
    {
      result := out;
      var i := 0;
      while i < |rows|
        invariant i <= |rows|
        invariant LoadRecipes(old(State()), out, rows, catalogue) == LoadRecipes(State(), result, rows[i..], catalogue)
      {
        assert rows[i..][0] == rows[i] && rows[i..][1..] == rows[i + 1..];
        var item := Lookup(catalogue, rows[i].itemId);
        if item.Some? {
          var recipe := AddRecipe(rows[i], item.value, catalogue);
          if recipe.Failure? {
            return result, Fail(BadNumber(recipe.error));
          }
          if rows[i].id in result {
            return result, Fail(DuplicateKey(rows[i].id));
          }
          result := result[rows[i].id := recipe.value];
        }
        i := i + 1;
      }
      status := Pass;
    }

    /** Every file of a directory whose name selects it as an item file, in enumeration order. */
    method AddItemsFromDir(files: seq<CsvFile<ItemRow>>, out: map<int, Item>) returns (result: map<int, Item>, status: Outcome<LoadError>)
      modifies this
      ensures (State(), result, status) == LoadItems(old(State()), out, SelectedRows(files, "item"))
    {
      result := out;
      var i := 0;
      while i < |files|
        invariant i <= |files|
        invariant LoadItems(old(State()), out, SelectedRows(files, "item")) == LoadItems(State(), result, SelectedRows(files[i..], "item"))
      {
        assert files[i..][0] == files[i] && files[i..][1..] == files[i + 1..];
        var chosen := if IsItemFile(files[i].name) then files[i].rows else [];
        LoadItemsAppend(State(), result, chosen, SelectedRows(files[i + 1..], "item"));
        if IsItemFile(files[i].name) {
          result, status := AddItems(files[i].rows, result);
          if status.Fail? {
            return;
          }
        } else {
          assert chosen + SelectedRows(files[i + 1..], "item") == SelectedRows(files[i + 1..], "item");
        }
        i := i + 1;
      }
      status := Pass;
    }

    /** Every file of a directory whose name selects it as a recipe file, in enumeration order. */
    method AddRecipesFromDir(files: seq<CsvFile<RecipeRow>>, out: map<int, Recipe>, catalogue: map<int, Item>) returns (result: map<int, Recipe>, status: Outcome<LoadError>)
      modifies this
      ensures (State(), result, status) == LoadRecipes(old(State()), out, SelectedRows(files, "recipe"), catalogue)
    {
      result := out;
      var i := 0;
      while i < |files|
        invariant i <= |files|
        invariant LoadRecipes(old(State()), out, SelectedRows(files, "recipe"), catalogue)
               == LoadRecipes(State(), result, SelectedRows(files[i..], "recipe"), catalogue)
      {
        assert files[i..][0] == files[i] && files[i..][1..] == files[i + 1..];
        var chosen := if IsRecipeFile(files[i].name) then files[i].rows else [];
        LoadRecipesAppend(State(), result, chosen, SelectedRows(files[i + 1..], "recipe"), catalogue);
        if IsRecipeFile(files[i].name) {
          result, status := AddRecipes(files[i].rows, result, catalogue);
          if status.Fail? {
            return;
          }
        } else {
          assert chosen + SelectedRows(files[i + 1..], "recipe") == SelectedRows(files[i + 1..], "recipe");
        }
        i := i + 1;
      }
      status := Pass;
    }
  }
}
