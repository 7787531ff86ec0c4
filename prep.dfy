/** build_inverted_index: clean every recipe's ingredient list, build the
    inverted index over the token sets, and derive each recipe's calories
    from the first entry of its nutrition list. */
module Prep {
  import opened Normalize
  import opened InvertedIndex

  datatype Option<T> = None | Some(value: T)

  /** A raw recipe record, its list fields already decoded. */
  datatype Recipe = Recipe(id: int, ingredients: seq<string>, nutrition: seq<real>)

  /** A row of the augmented table, keyed by the recipe id; `calories` is
      None where pandas would store a missing value (NaN). */
  datatype IndexedRecipe = IndexedRecipe(
    id: int,
    ingredients: seq<string>,
    cleanIngredients: set<string>,
    nutrition: seq<real>,
    calories: Option<real>)

  /** What build_inverted_index returns: the index and the augmented table. */
  datatype Built = Built(index: Index, table: seq<IndexedRecipe>)

  /** `df['nutrition'].str[0]` for one row: the first entry of the list,
      or a missing value when the list is empty. */
  function Calories(nutrition: seq<real>): (c: Option<real>)
    ensures c.Some? <==> |nutrition| > 0
    ensures c.Some? ==> c.value == nutrition[0]
  {
    if |nutrition| > 0 then Some(nutrition[0]) else None
  }

  /** The row the index loop sees for one recipe: its id with the token
      set of its ingredient list. */
  ghost function CleanRow(r: Recipe): (row: Row)
    ensures row.id == r.id
    ensures |row.tokens| <= |r.ingredients|
  {
    Row(r.id, Tokens(r.ingredients))
  }

  /** The recipes of a table, each turned into a row by f. */
  ghost function RowsOf(recipes: seq<Recipe>, f: Recipe -> Row): (rows: seq<Row>)
    ensures |rows| == |recipes|
    ensures forall i :: 0 <= i < |recipes| ==> rows[i] == f(recipes[i])
  {
    seq(|recipes|, i requires 0 <= i < |recipes| => f(recipes[i]))
  }

  /** The rows the index loop iterates, one per recipe, in table order. */
  ghost function CleanRows(recipes: seq<Recipe>): (rows: seq<Row>)
    ensures |rows| == |recipes|
    ensures forall i :: 0 <= i < |recipes| ==> rows[i] == CleanRow(recipes[i])
  {
    RowsOf(recipes, CleanRow)
  }

  /** The augmented table row of one recipe. */
  ghost function Augmented(r: Recipe): (a: IndexedRecipe)
    ensures a.id == r.id && a.ingredients == r.ingredients && a.nutrition == r.nutrition
    ensures a.cleanIngredients == CleanRow(r).tokens
    ensures forall t :: t in a.cleanIngredients ==> IsToken(t)
    ensures a.calories.Some? <==> |r.nutrition| > 0
    ensures a.calories.Some? ==> a.calories.value == r.nutrition[0]
  {
    TokensAreTokens(r.ingredients);
    IndexedRecipe(r.id, r.ingredients, Tokens(r.ingredients), r.nutrition, Calories(r.nutrition))
  }

  /** One more recipe adds its row at the end. */
  lemma RowsOfSnoc(recipes: seq<Recipe>, f: Recipe -> Row, i: int)
    requires 0 <= i < |recipes|
    ensures RowsOf(recipes[..i + 1], f) == RowsOf(recipes[..i], f) + [f(recipes[i])]
  {
    assert recipes[..i + 1][..i] == recipes[..i];
  }

  /** The cleaning pass of build_inverted_index: each recipe's ingredient
      list goes through normalize_ingredient, in table order. */
  method CleanRecipes(recipes: seq<Recipe>) returns (rows: seq<Row>)
    ensures rows == CleanRows(recipes)
  {
    rows := [];
    for i := 0 to |recipes|
      invariant rows == RowsOf(recipes[..i], CleanRow)
    {
      var tokens := NormalizeIngredient(recipes[i].ingredients);
      RowsOfSnoc(recipes, CleanRow, i);
      rows := rows + [Row(recipes[i].id, tokens)];
    }
    assert recipes[..|recipes|] == recipes;
  }

  /** build_inverted_index. On an empty table the source fails (reading
      the first nutrition entry raises), which is modelled as None. */
  method BuildInvertedIndex(recipes: seq<Recipe>) returns (built: Option<Built>)
    ensures built.None? <==> recipes == []
    ensures built.Some? ==> built.value.index.Keys == Vocabulary(CleanRows(recipes))
    ensures built.Some? ==> forall t :: t in built.value.index ==>
              built.value.index[t] == Posting(CleanRows(recipes), t)
    ensures built.Some? ==> EntryCount(built.value.index) == TokenTotal(CleanRows(recipes))
    ensures built.Some? ==> |built.value.table| == |recipes|
    ensures built.Some? ==> forall i :: 0 <= i < |recipes| ==>
              built.value.table[i] == Augmented(recipes[i])
  {
    var rows := CleanRecipes(recipes);
    var index := BuildIndex(rows);
    if |recipes| == 0 {
      return None;
    }
    var table := seq(|recipes|, i requires 0 <= i < |recipes| =>
      IndexedRecipe(recipes[i].id, recipes[i].ingredients, rows[i].tokens,
                    recipes[i].nutrition, Calories(recipes[i].nutrition)));
    built := Some(Built(index, table));
  }

  /** An id is listed under a token exactly when a recipe with that id has
      the token in its cleaned ingredient set. */
  lemma ListedIffRecipeHasToken(recipes: seq<Recipe>, t: string, id: int)
    ensures id in Posting(CleanRows(recipes), t)
        <==> exists i :: 0 <= i < |recipes| && recipes[i].id == id && t in Tokens(recipes[i].ingredients)
  {
    var rows := CleanRows(recipes);
    PostingMembership(rows, t, id);
    if exists i :: 0 <= i < |rows| && rows[i].id == id && t in rows[i].tokens {
      var i :| 0 <= i < |rows| && rows[i].id == id && t in rows[i].tokens;
      assert recipes[i].id == id && t in Tokens(recipes[i].ingredients);
    }
    if exists i :: 0 <= i < |recipes| && recipes[i].id == id && t in Tokens(recipes[i].ingredients) {
      var i :| 0 <= i < |recipes| && recipes[i].id == id && t in Tokens(recipes[i].ingredients);
      assert rows[i].id == id && t in rows[i].tokens;
    }
  }

  /** "eggs" and "Eggs" both clean to "egg". */
  lemma CleanEggs()
    ensures Clean("eggs") == "egg" && Clean("Eggs") == "egg"
  {
    CleanKeepsLowerWord("eggs");
    assert "eggs"[..3] == "egg";
    LowerEggs();
    CleanIgnoresCase("Eggs");
  }

  lemma LowerEggs()
    ensures Lower("Eggs") == "eggs"
  {
    assert Lower("Eggs")[0] == 'e';
  }

  /** "egg" is a token of both ingredient lists. */
  lemma EggTokens()
    ensures "egg" in Tokens(["eggs"]) && "egg" in Tokens(["Eggs", "milk"])
  {
    CleanEggs();
    var one: seq<string> := ["eggs"];
    var two: seq<string> := ["Eggs", "milk"];
    assert CleansTo(one, 0, "egg");
    TokensCharacterised(one, "egg");
    assert CleansTo(two, 0, "egg");
    TokensCharacterised(two, "egg");
  }

  /** Two recipes whose token sets both hold t: the list of t is their
      ids, in recipe order. */
  lemma PostingOfTwoRecipes(a: Recipe, b: Recipe, t: string)
    requires t in Tokens(a.ingredients) && t in Tokens(b.ingredients)
    ensures Posting(CleanRows([a, b]), t) == [a.id, b.id]
  {
    PostingOfTwo(CleanRow(a), CleanRow(b), t);
    assert CleanRows([a, b]) == [CleanRow(a), CleanRow(b)];
  }

  /** Two recipes that both list eggs, one as "eggs" and one as "Eggs":
      the list of "egg" holds both ids, in recipe order. */
  lemma EggsInTwoRecipes(a: Recipe, b: Recipe)
    requires a.ingredients == ["eggs"] && b.ingredients == ["Eggs", "milk"]
    ensures Posting(CleanRows([a, b]), "egg") == [a.id, b.id]
  {
    EggTokens();
    PostingOfTwoRecipes(a, b, "egg");
  }
}
