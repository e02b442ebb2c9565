# travelers-rest-bulk-mod: custom items and fishing changes, in Dafny

This project models two parts of a BepInEx mod for the game Travellers Rest.

**Custom items** (`CustomItems/CustomItemHelpers.cs`) loads modded items and
recipes from CSV files into the game's databases. The model covers:

- Which files are read: the lower-cased name contains "item" or "recipe", and
  the name itself ends in ".csv".
- The item and recipe registry. It has the two id-keyed dictionaries, which
  start out null and are created on first use. It has the append-only item and
  recipe arrays, and the unlocked and favourite recipe lists.
- `AddItem` and `AddRecipe`. A duplicate id is rejected and the existing entry
  is returned. A fresh id is inserted.
- The loops over CSV rows, which add every result to the caller's dictionary.
  The recipe loop skips rows whose output item is unknown.
- The ingredient-list parser. It scans left to right for the regular
  expression `(?<itemId>[-]*\d+) - ("\D*" ){0,1}\((?<itemAmount>\d+)\)`, and
  each next match starts where the previous one ended. Both groups go through
  `Int32.Parse`, which can throw.
- The `nameId` text and the 33-pixel sprite cells of a new item.

**Fishing changes** (`FishingChanges/Plugin.cs`) patches the fishing minigame.
The model covers:

- **The locator.** It finds the compiler-generated coroutine that
  `FishingController.FinishFishing` starts. This is the first `call` whose
  text names an `IEnumerator` method of `FishingController` taking
  `(Vector3, bool)`. The name is the text between "::" and "(". The locator
  then returns that coroutine's state-machine method.
- **The rewriter** `ChangeAnimationTime`. It makes three attempts. Each one
  searches forward from an IL cursor for the load of the shared 1.5-second
  wait. On a hit it removes that load and emits a delegate call in its place.
- **The Harmony prefix** `SkipFishingMinigame`.

The model is organised in these modules:

- **`Common`**: `Option`, `Result` and a pass/fail `Outcome`.
- **`Strings`**: the .NET string operations the code relies on. These are
  ordinal `IndexOf`/`Contains` and `Split`, `EndsWith`, ASCII
  `ToLowerInvariant`, integer formatting, and `Int32.Parse` on the texts the
  regex groups capture. `EndsWith`, formatting and parsing are stated as the
  invariant culture performs them.
- **`IngredientRegex`**: the pattern as a match function at one position. It
  includes the backtracking of `("\D*" ){0,1}`. Leftmost match search
  (`Regex.Match`/`NextMatch`) and the scan over a whole list are also here.
- **`CustomItems`**:
  - records for CSV rows, items and recipes;
  - the database as a value (`Db`) with specification functions for each
    operation;
  - a `Registry` class whose fields the methods update in place, with each
    method proved equal to its specification function;
  - the ingredient loop as a method.
- **`FishingChanges`**:
  - instructions and a method body as `seq<Instr>`;
  - MonoMod's `ILContext` and `ILCursor` as classes, where a successful
    `TryGotoNext` makes the next search start after the instruction found,
    and `Remove`/`EmitDelegate` make it start at the cursor;
  - the locator, the rewriter proved against a specification function, and
    the prefix's decision.

Host lookups become parameters:

- `ItemDatabaseAccessor.GetItem` is a `catalogue` map.
- The reflection view of `FishingController` is a map from method name to
  method.
- A CSV file is its name and its already-bound rows.

In the ingredient list `4 (2), -1 - "Salt" (3)` only `-1 - "Salt" (3)` is
read. `4 (2)` has no " - " after its id, and a quoted name must be followed
by a space and then the amount in parentheses.

`AddItem`/`AddRecipe` return the existing entry for an id that is already
registered. The row loops then call `Dictionary.Add` on the caller's
dictionary, which throws for an id the caller already holds. The model
reports that as `DuplicateKey`.

## Model

| member | source | states |
|---|---|---|
| Strings.IndexOf | CustomItems/CustomItemHelpers.cs:34 | the position returned is an occurrence of the pattern with none before it; None only when the pattern occurs nowhere |
| Strings.ContainsIff | CustomItems/CustomItemHelpers.cs:34 | `Contains` holds exactly when the pattern occurs at some position |
| Strings.ToLowerInvariant | CustomItems/CustomItemHelpers.cs:34 | same length, each character mapped to lower case (ASCII letters) |
| Strings.ToLowerInvariantConcat | CustomItems/CustomItemHelpers.cs:34 | lower-casing distributes over concatenation |
| Strings.Split | FishingChanges/Plugin.cs:113 | joining the parts with the separator gives the text back; no part holds the separator; the first part is the text before the first separator |
| Strings.SplitFirst | FishingChanges/Plugin.cs:113 | the first part of a split is the text before the first separator |
| Strings.SplitSecond | FishingChanges/Plugin.cs:113 | the second part of a split is the first part of the text after the first separator |
| Strings.FirstOccurrence | FishingChanges/Plugin.cs:113 | an occurrence with none before it is the one `IndexOf` finds |
| Strings.NatToString | CustomItems/CustomItemHelpers.cs:102 | decimal text of a number: non-empty, all digits, no leading zero |
| Strings.NatToStringValue | CustomItems/CustomItemHelpers.cs:102 | the digits written denote the number |
| Strings.IntToString | CustomItems/CustomItemHelpers.cs:102 | `int.ToString()` in the invariant culture: '-' before a negative number's digits; its sign, injectivity and round trip are IntToStringSign, IntToStringInjective and ParseIntToString |
| Strings.IntToStringSign | CustomItems/CustomItemHelpers.cs:102 | the text starts with '-' exactly for negative numbers |
| Strings.IntToStringInjective | CustomItems/CustomItemHelpers.cs:102 | different numbers have different texts |
| Strings.IntToStringHasNoSpace | CustomItems/CustomItemHelpers.cs:102 | a number's text holds no space |
| Strings.LeadingCountRun | CustomItems/CustomItemHelpers.cs:177 | the greedy run of a character class is all in the class and is followed by a character outside it |
| Strings.LeadingCountIs | CustomItems/CustomItemHelpers.cs:177 | a run of the class ended by a character outside it is the greedy run |
| Strings.ParseInt32 | CustomItems/CustomItemHelpers.cs:185-186 | a successful parse lies in the 32-bit range |
| Strings.ParseInt32Shape | CustomItems/CustomItemHelpers.cs:185-186 | two or more leading minus signs are a FormatException; a success is digits, optionally after one '-' |
| Strings.ParseIntToString | CustomItems/CustomItemHelpers.cs:186 | parsing a 32-bit number's text gives the number back |
| Strings.ParseDigits | CustomItems/CustomItemHelpers.cs:185 | parsing in-range digits gives their value |
| IngredientRegex.AmountAtSound | CustomItems/CustomItemHelpers.cs:177 | the amount part matched '(' then a non-empty run of digits (the captured amount) then ')' |
| IngredientRegex.MatchAt | CustomItems/CustomItemHelpers.cs:177 | a match at a position ends after it and within the text |
| IngredientRegex.MatchAtStart | CustomItems/CustomItemHelpers.cs:177 | no match starts at a character that is neither '-' nor a digit |
| IngredientRegex.IdSound | CustomItems/CustomItemHelpers.cs:177 | the id group is the minus signs followed by nothing but digits, at least one |
| IngredientRegex.MatchAtSound | CustomItems/CustomItemHelpers.cs:177 | every match has an id of minus signs then digits, and an amount of digits closed by ')' |
| IngredientRegex.MatchParseErrors | CustomItems/CustomItemHelpers.cs:177-186 | the amount never raises a FormatException; the id raises one exactly when `[-]*` took two or more minus signs |
| IngredientRegex.MatchPair | CustomItems/CustomItemHelpers.cs:185-186 | one match's (id, amount): the amount is parsed before the id, and the first `Int32.Parse` that throws is the error; FormattedIngredientPair and MatchParseErrors state its results |
| IngredientRegex.NextMatch | CustomItems/CustomItemHelpers.cs:181 | the leftmost match at or after the start position, with no match between the start and it; None when no position matches |
| IngredientRegex.NextMatchScan | CustomItems/CustomItemHelpers.cs:181 | what the leftmost search finds is what the scan consumes next, and the scan resumes where that match ended |
| IngredientRegex.PairsFrom | CustomItems/CustomItemHelpers.cs:181-188 | the pairs of all matches from a position on, in order, resuming after each match and failing at the first rejected number; NextMatchScan ties it to the leftmost search |
| IngredientRegex.IngredientPairs | CustomItems/CustomItemHelpers.cs:180-188 | the pairs of a whole ingredient list; ParseFormatted, NameIsIgnored and RepeatedMinusFails state what it returns |
| IngredientRegex.PairsFromAppend | CustomItems/CustomItemHelpers.cs:181 | the ingredients from a position on depend only on the text from there on |
| IngredientRegex.PairsFromSuffix | CustomItems/CustomItemHelpers.cs:181 | scanning from a position equals scanning the remaining text alone |
| IngredientRegex.MatchToken | CustomItems/CustomItemHelpers.cs:177 | a well-formed ingredient at the scan position is matched exactly, whatever follows it |
| IngredientRegex.PairsOfLeadingToken | CustomItems/CustomItemHelpers.cs:181-187 | an ingredient in front of a list contributes its pair in front of the list's pairs |
| IngredientRegex.NameIsIgnored | CustomItems/CustomItemHelpers.cs:176-177 | the optional quoted item name does not change the parsed ingredients |
| IngredientRegex.SkipsUnmatchedText | CustomItems/CustomItemHelpers.cs:181 | text in which no match can start is skipped |
| IngredientRegex.SkipsUnmatchedPrefix | CustomItems/CustomItemHelpers.cs:181 | such text in front of a list leaves the list's ingredients unchanged |
| IngredientRegex.RepeatedMinusFails | CustomItems/CustomItemHelpers.cs:177-186 | an id with two or more minus signs makes `Int32.Parse` throw, failing the whole list |
| IngredientRegex.FormattedIngredientPair | CustomItems/CustomItemHelpers.cs:185-186 | a written ingredient's groups parse back to its id and amount |
| IngredientRegex.ParseFormatted | CustomItems/CustomItemHelpers.cs:180-188 | a list written as "<id> - (<amount>), …" parses back to exactly those pairs, in order |
| CustomItems.Selected | CustomItems/CustomItemHelpers.cs:34 | the file filter: the lower-cased name contains the word and the name ends in ".csv"; SelectedAnyCase, UpperCaseExtensionIgnored and SelectedHasWord state its consequences |
| CustomItems.SelectedAnyCase | CustomItems/CustomItemHelpers.cs:34 | the word is found whatever its case in the name, given a ".csv" ending |
| CustomItems.UpperCaseExtensionIgnored | CustomItems/CustomItemHelpers.cs:34 | a name ending in ".CSV" is never read |
| CustomItems.SelectedHasWord | CustomItems/CustomItemHelpers.cs:129 | a file read for a word has that word in its lower-cased name and ends in ".csv" |
| CustomItems.CellsTile | CustomItems/CustomItemHelpers.cs:113-115 | a pixel lies in the 33×33 cell (33x, 33y) exactly when that is the pixel's cell |
| CustomItems.SpriteCell | CustomItems/CustomItemHelpers.cs:113-115 | the 33×33 rectangle of sprite column x, row y; CellsTile proves that the cells tile the sheet |
| CustomItems.NameId | CustomItems/CustomItemHelpers.cs:102 | an item's display key, id then " - " then name; NameIdSplits, NameIdInjective and NameIdParses prove it can be split and read back |
| CustomItems.NewItem | CustomItems/CustomItemHelpers.cs:90-117 | the item a row describes, with the constants the loader sets; NewItemSprites and NewItemIgnoresColumns state which fields come from the row |
| CustomItems.NameIdSplits | CustomItems/CustomItemHelpers.cs:102 | the first " - " of a name id comes right after the id's text, and the name follows it |
| CustomItems.NameIdInjective | CustomItems/CustomItemHelpers.cs:102 | equal name ids mean equal ids and equal names |
| CustomItems.NameIdParses | CustomItems/CustomItemHelpers.cs:102 | `Int32.Parse` of the text before " - " gives the id back |
| CustomItems.NewItemSprites | CustomItems/CustomItemHelpers.cs:113-115 | icon, ingredient icon and sprite are all the row's cell of its sheet |
| CustomItems.NewItemIgnoresColumns | CustomItems/CustomItemHelpers.cs:97-103 | the row's modifiers, appears-in-orders and excluded-from-trends columns do not affect the item, which always has no modifiers, appears in orders and is not excluded from trends |
| CustomItems.ToIngredients | CustomItems/CustomItemHelpers.cs:183-187 | one ingredient per pair, in the same order |
| CustomItems.ToIngredientsAt | CustomItems/CustomItemHelpers.cs:183-187 | ingredient i has pair i's amount and its id's item, or no item for an unknown id |
| CustomItems.Ingredients | CustomItems/CustomItemHelpers.cs:180-190 | the ingredients of a recipe's ingredient text, or the parse error; IngredientsIgnoreName and IngredientsOfWritten state what it returns |
| CustomItems.IngredientsIgnoreName | CustomItems/CustomItemHelpers.cs:176-187 | a quoted name in an ingredient does not change the recipe's ingredients |
| CustomItems.IngredientsOfWritten | CustomItems/CustomItemHelpers.cs:180-188 | a written list reads back as those ingredients, in order |
| CustomItems.NewRecipe | CustomItems/CustomItemHelpers.cs:192-204 | the recipe a row describes for its output item and ingredients; AddRecipeFresh states its fields |
| CustomItems.ParseIngredientList | CustomItems/CustomItemHelpers.cs:180-190 | the loop over matches builds exactly the ingredients of the whole list, or fails with the first parse error |
| CustomItems.AddItemTo | CustomItems/CustomItemHelpers.cs:65-124 | `AddItem` on the registry as a value; AddItemDuplicate, AddItemFresh, AddItemLazyInit and AddItemKeyed state its cases |
| CustomItems.AddItemDuplicate | CustomItems/CustomItemHelpers.cs:80-84 | an id already registered returns the registered item and changes nothing |
| CustomItems.AddItemFresh | CustomItems/CustomItemHelpers.cs:117-121 | a fresh id adds exactly one entry, appends the item at the end of the array, and changes nothing else |
| CustomItems.AddItemLazyInit | CustomItems/CustomItemHelpers.cs:73-78 | with a null dictionary the first item is stored, in a dictionary that holds only it |
| CustomItems.AddItemKeyed | CustomItems/CustomItemHelpers.cs:117-121 | every entry stays under its own id, and the item returned has the row's id |
| CustomItems.AddRecipeTo | CustomItems/CustomItemHelpers.cs:151-225 | `AddRecipe` on the registry as a value; AddRecipeDuplicate, AddRecipeFresh, AddRecipeRejected and AddRecipeKeyed state its cases |
| CustomItems.AddRecipeDuplicate | CustomItems/CustomItemHelpers.cs:169-173 | an id already registered returns the registered recipe and changes nothing but the lazy creation of the dictionary |
| CustomItems.AddRecipeFresh | CustomItems/CustomItemHelpers.cs:192-222 | a fresh recipe has the row's id, the output (item, amount), the item's name and the parsed ingredients; it is inserted, appended, unlocked and made a favourite |
| CustomItems.AddRecipeRejected | CustomItems/CustomItemHelpers.cs:183-187 | an ingredient text `Int32.Parse` rejects adds no recipe |
| CustomItems.AddRecipeKeyed | CustomItems/CustomItemHelpers.cs:208-210 | every entry stays under its own id, and a recipe returned has the row's id |
| CustomItems.LoadItems | CustomItems/CustomItemHelpers.cs:37-45 | the row loop of `AddItems` as a value; the LoadItems lemmas state when it passes and what it leaves |
| CustomItems.LoadItemsPasses | CustomItems/CustomItemHelpers.cs:41-44 | loading items succeeds exactly when the rows' ids are pairwise different and new to the caller's dictionary |
| CustomItems.LoadItemsRegistry | CustomItems/CustomItemHelpers.cs:41-44 | loading never replaces a registry entry, only appends items, keeps entries keyed, and leaves recipes alone |
| CustomItems.LoadItemsCallerMap | CustomItems/CustomItemHelpers.cs:43 | the caller keeps its entries, and each new entry is the registry's item under that id |
| CustomItems.LoadItemsKeys | CustomItems/CustomItemHelpers.cs:43 | after a complete load the caller's ids are its old ids plus the rows' ids |
| CustomItems.LoadItemsAppend | CustomItems/CustomItemHelpers.cs:33-35 | loading two lists of rows is loading the first, then the second unless the first failed |
| CustomItems.LoadRecipes | CustomItems/CustomItemHelpers.cs:132-142 | the row loop of `AddRecipes` as a value; the LoadRecipes lemmas state what it skips, when it passes and what it leaves |
| CustomItems.LoadRecipesSkipsUnknown | CustomItems/CustomItemHelpers.cs:138-140 | a row whose output item does not exist is skipped: nothing is added and nothing is parsed |
| CustomItems.LoadRecipesRegistry | CustomItems/CustomItemHelpers.cs:136-141 | loading never replaces a registry entry, only appends recipes, unlocks and favourites, and leaves items alone |
| CustomItems.LoadRecipesCallerMap | CustomItems/CustomItemHelpers.cs:140 | the caller keeps its entries, and each new entry is the registry's recipe under that id |
| CustomItems.LoadRecipesKeys | CustomItems/CustomItemHelpers.cs:140 | after a complete load the caller's ids are its old ids plus those of rows with an existing item |
| CustomItems.LoadRecipesPassDistinct | CustomItems/CustomItemHelpers.cs:138-140 | a complete load means the ids of rows with an existing item were pairwise different and new to the caller |
| CustomItems.LoadRecipesAppend | CustomItems/CustomItemHelpers.cs:128-130 | loading two lists of recipe rows is loading the first, then the second unless the first failed |
| CustomItems.Registry.constructor | CustomItems/CustomItemHelpers.cs:73-78 | the registry holds the game's state as found: each dictionary null or filled, the arrays, and the unlocked and favourite recipes |
| CustomItems.Registry.AddItem | CustomItems/CustomItemHelpers.cs:65-124 | the new state and the item returned are those of the item specification |
| CustomItems.Registry.AddRecipe | CustomItems/CustomItemHelpers.cs:151-225 | the new state and the recipe returned are those of the recipe specification |
| CustomItems.Registry.AddItems | CustomItems/CustomItemHelpers.cs:37-45 | the loop over rows ends in the state, caller dictionary and outcome of the loading specification |
| CustomItems.Registry.AddRecipes | CustomItems/CustomItemHelpers.cs:132-142 | the same for recipe rows, skipping unknown output items |
| CustomItems.Registry.AddItemsFromDir | CustomItems/CustomItemHelpers.cs:31-36 | loads the rows of the selected files, in file order |
| CustomItems.Registry.AddRecipesFromDir | CustomItems/CustomItemHelpers.cs:126-131 | loads the rows of the selected recipe files, in file order |
| FishingChanges.IsDynamicMethodCall | FishingChanges/Plugin.cs:101-110 | the predicate the locator searches with: a `call` whose text names an IEnumerator method of FishingController taking (Vector3, bool) |
| FishingChanges.ExtractName | FishingChanges/Plugin.cs:113 | the text between the first "::" and the next "("; ExtractNameOf proves it returns the method name |
| FishingChanges.ContainsSeparator | FishingChanges/Plugin.cs:109 | a qualifying text holds "::", so the name can be extracted |
| FishingChanges.ExtractNameOf | FishingChanges/Plugin.cs:113 | from `<prefix>::<name>(<rest>` the extraction gives back exactly the name |
| FishingChanges.FirstSeparator | FishingChanges/Plugin.cs:113 | the first "::" is the one after a prefix that holds none |
| FishingChanges.NameThenParen | FishingChanges/Plugin.cs:113 | the part after the first "::" starts with the name and "(" |
| FishingChanges.FirstParen | FishingChanges/Plugin.cs:113 | splitting that part at "(" gives the name first |
| FishingChanges.FindNext | FishingChanges/Plugin.cs:99-116 | the first position from the start that satisfies the predicate; no earlier one does; None only if none does |
| FishingChanges.DynamicMethodName | FishingChanges/Plugin.cs:85-116 | the name taken from the first qualifying call, or ""; FirstCallWins and NoCallNoName state both cases |
| FishingChanges.FirstCallWins | FishingChanges/Plugin.cs:85-116 | the name comes from the first qualifying instruction, whatever follows |
| FishingChanges.NoCallNoName | FishingChanges/Plugin.cs:85 | with no qualifying instruction the name stays "" |
| FishingChanges.IsWaitLoad | FishingChanges/Plugin.cs:163-174 | the predicate the rewriter searches with: an `ldsfld` of `CommonReferences::wait1_5` of type WaitForSeconds |
| FishingChanges.ILCursor.TryGotoNext | FishingChanges/Plugin.cs:99 | on success the cursor stands before the first match from the search start; otherwise it does not move |
| FishingChanges.ILCursor.Remove | FishingChanges/Plugin.cs:175 | the instruction after the cursor is deleted and nothing else |
| FishingChanges.ILCursor.EmitDelegate | FishingChanges/Plugin.cs:177-181 | the replacement is inserted at the cursor, and the cursor moves past it |
| FishingChanges.RemoveThenEmit | FishingChanges/Plugin.cs:175-181 | removing then emitting at the same place replaces that one instruction |
| FishingChanges.Attempt | FishingChanges/Plugin.cs:163-181 | one loop iteration as a value: the first target from the search start is replaced and the search resumes after it, or nothing changes |
| FishingChanges.Rewrite | FishingChanges/Plugin.cs:161-182 | n attempts in a row; RewriteAt states exactly which positions it replaces |
| FishingChanges.ReplaceNextWait | FishingChanges/Plugin.cs:163-181 | one attempt: the body and cursor become those of the attempt specification |
| FishingChanges.ChangeAnimationTime | FishingChanges/Plugin.cs:156-183 | the body becomes the three-attempt rewrite of the original |
| FishingChanges.RewriteAt | FishingChanges/Plugin.cs:161-181 | position j is replaced exactly when it is a target at or after the start with fewer than n targets before it; every other position keeps its instruction |
| FishingChanges.RewriteKeeps | FishingChanges/Plugin.cs:163-174 | positions before the search start are never touched |
| FishingChanges.RewriteMiss | FishingChanges/Plugin.cs:163-174 | when the search finds nothing, later attempts change nothing either |
| FishingChanges.RewriteWithoutTargets | FishingChanges/Plugin.cs:163-174 | a body without any wait load comes out unchanged |
| FishingChanges.RewriteBound | FishingChanges/Plugin.cs:161-177 | only wait loads are replaced, and only those with fewer than three wait loads before them |
| FishingChanges.CountSplit | FishingChanges/Plugin.cs:161 | counting past the first target: one for it, then those after it |
| FishingChanges.DynamicFinishFishingMethod | FishingChanges/Plugin.cs:80-123 | the locator as a value: a failure without FinishFishing, else the state machine of the method the first call names, or none |
| FishingChanges.InstallsRewriteHook | FishingChanges/Plugin.cs:71-74 | whether `Awake` installs the rewrite hook: exactly when the locator finds a method |
| FishingChanges.MissingFinishFishingFails | FishingChanges/Plugin.cs:87-91 | without a public FinishFishing the locator fails and the plugin does not load |
| FishingChanges.NoCallNoHook | FishingChanges/Plugin.cs:71-74 | with no qualifying call (and no method named "") nothing is found and no hook is installed |
| FishingChanges.FirstCallLocates | FishingChanges/Plugin.cs:120-122 | the state machine returned is that of the non-public instance method named by the first qualifying call |
| FishingChanges.GetDynamicFinishFishingMethod | FishingChanges/Plugin.cs:80-123 | the cursor-based locator returns what the locator specification does |
| FishingChanges.SkipFishingMinigameAsWritten | FishingChanges/Plugin.cs:187-205 | the prefix's decision as written, including `return false` for a disabled setting |
| FishingChanges.DisabledSkipStopsLateUpdate | FishingChanges/Plugin.cs:189 | as written, a disabled setting makes the prefix skip `LateUpdate` |
| FishingChanges.SkipFishingMinigame | FishingChanges/Plugin.cs:187-205 | the corrected prefix's decision, which the rest of the model uses; SkipFishingMinigameSpec states it |
| FishingChanges.SkipFishingMinigameSpec | FishingChanges/Plugin.cs:187-205 | the corrected prefix always lets `LateUpdate` run, fills the slider exactly when skipping is on, the content is active and the slider exists, and agrees with the code whenever skipping is on |

## Left out

- Directory enumeration, file reading and CSV binding (CustomItemHelpers.cs:33, 39-40, 134-135) are I/O and a library. A file is its name and its already-bound rows.
- Unity object creation (`ScriptableObject.CreateInstance`, `Sprite.Create`, textures) and reflection (`Traverse`, `RandomNameHelper`) are host calls. Items and recipes are plain records, and the private dictionaries are fields of `Registry`.
- Adding a recipe to its crafter (CustomItemHelpers.cs:213-217) is left out, because the host's crafter list is not part of this model. This includes the `InvalidOperationException` that `.First` throws when no crafter has the workstation id. `UnlockRecipe` and `AddFavoriteRecipe` are modelled as appends of the recipe id.
- The 150 ms regex timeout is left out. `\d` is ASCII digits only, so .NET's Unicode digits are not modelled.
- The log messages are left out.
- Strings.EndsWith: compares ordinally. The source's `EndsWith(".csv")` (CustomItemHelpers.cs:34, 129) uses the current culture and skips ignorable code points, so a name with a soft hyphen after ".csv" passes it but not the model.
- Strings.ToLowerInvariant: lowers ASCII capitals only. .NET's `ToLowerInvariant` (CustomItemHelpers.cs:34, 129) lowers every Unicode capital, so a file whose word is spelt with a non-ASCII capital that lowers to an ASCII letter is selected by the source and not by the model.
- Strings.IntToString: writes the invariant culture's '-'. `int.ToString()` (CustomItemHelpers.cs:102) writes the current culture's NegativeSign, which can be another text.
- Strings.IntToStringSign: states the invariant culture's '-', for the same reason as Strings.IntToString.
- Strings.ParseInt32: reads the invariant culture's '-'. `int.Parse` (CustomItemHelpers.cs:185-186) reads the current culture's NegativeSign.
- CustomItems.Selected: inherits the ordinal `EndsWith` and the ASCII-only lower-casing above.
- CustomItems.SelectedHasWord: states the ordinal ".csv" ending and ASCII lower-casing, for the reasons given for Strings.EndsWith and Strings.ToLowerInvariant.
- CustomItems.SpriteCell: does not model the 32-bit wrap-around of `x * 33` for very large sprite coordinates. The cell arithmetic is on unbounded integers.
- Harmony patching and unpatching of other mods' prefixes (Plugin.cs:42-68) and creating the `ILHook` are foreign interception. Only the decision whether the hook is installed is modelled (`InstallsRewriteHook`).
- The float duration of the emitted wait (1.5 or the setting / 3) and the slider value 1.0 are floating point. The emitted delegate call is one opaque `Replacement` instruction, and the slider is only "filled or not".
- `NetLogic` (Plugin.cs:125-154) is marked work in progress, is never installed, and uses randomness.
- Method overloads in reflection lookups (`AmbiguousMatchException`) are not modelled. A type's methods are a map from name to method.
- `Instruction.ToString()` is taken as given: an instruction carries its text.

## Findings

| source | as written | input that shows it | evidently intended | confidence | as-written member | corrected member |
|---|---|---|---|---|---|---|
| FishingChanges/Plugin.cs:189 | when the skip setting is off, the prefix returns false, which tells Harmony to skip the original `FishingUI.LateUpdate` | the setting is on at start-up (so the prefix is installed) and is then turned off in the configuration | a disabled setting should return true and leave `LateUpdate` running untouched | not executed | FishingChanges.SkipFishingMinigameAsWritten / FishingChanges.DisabledSkipStopsLateUpdate | FishingChanges.SkipFishingMinigame / FishingChanges.SkipFishingMinigameSpec |
