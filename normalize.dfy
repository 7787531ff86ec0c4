/** Ingredient normalisation: the per-item cleaning chain (lower-case,
    delete everything but letters and whitespace, strip, drop one trailing
    's') and the token set that a recipe's raw ingredient list yields.

    Characters are treated as ASCII: only 'A'-'Z' change case, and
    whitespace is the set of ASCII characters that Python's str.isspace
    accepts (which is also what the regular expression class \s matches). */
module Normalize {

  /** Python's str.isspace on ASCII: TAB, LF, VT, FF, CR (9-13), the
      information separators 0x1C-0x1F, and the space (32). */
  predicate IsSpace(c: char) {
    (9 <= c as int <= 13) || (28 <= c as int <= 32)
  }

  predicate IsLower(c: char) { 'a' <= c <= 'z' }

  predicate IsUpper(c: char) { 'A' <= c <= 'Z' }

  /** A character that the substitution [^a-z\s] -> '' leaves in place. */
  predicate IsKept(c: char) { IsLower(c) || IsSpace(c) }

  /** str.lower on one ASCII character. */
  function LowerChar(c: char): (d: char)
    ensures IsUpper(c) ==> IsLower(d) && d as int == c as int + 32
    ensures !IsUpper(c) ==> d == c
  {
    if IsUpper(c) then (c as int + 32) as char else c
  }

  /** str.lower: every character lower-cased in place. */
  function Lower(s: string): (r: string)
    ensures |r| == |s|
    ensures forall i :: 0 <= i < |s| ==> r[i] == LowerChar(s[i])
    ensures forall i :: 0 <= i < |r| ==> !IsUpper(r[i])
  {
    if s == [] then [] else Lower(s[..|s| - 1]) + [LowerChar(s[|s| - 1])]
  }

  /** re.sub(r'[^a-z\s]', '', s): every character outside a-z and
      whitespace deleted. */
  function KeepLettersAndSpaces(s: string): (r: string)
    ensures |r| <= |s|
    ensures forall i :: 0 <= i < |r| ==> IsKept(r[i])
  {
    if s == [] then []
    else if IsKept(s[|s| - 1]) then KeepLettersAndSpaces(s[..|s| - 1]) + [s[|s| - 1]]
    else KeepLettersAndSpaces(s[..|s| - 1])
  }

  /** The substitution keeps every a-z and whitespace character as often
      as it occurs, and no other character. */
  lemma {:induction false} KeepLettersAndSpacesCounts(s: string, c: char)
    ensures multiset(KeepLettersAndSpaces(s))[c] == if IsKept(c) then multiset(s)[c] else 0
  {
    if s != [] {
      assert s == s[..|s| - 1] + [s[|s| - 1]];
      KeepLettersAndSpacesCounts(s[..|s| - 1], c);
    }
  }

  /** The substitution works character by character, so it distributes
      over concatenation. */
  lemma {:induction false} KeepLettersAndSpacesAppend(a: string, b: string)
    ensures KeepLettersAndSpaces(a + b) == KeepLettersAndSpaces(a) + KeepLettersAndSpaces(b)
  {
    if b == [] {
      assert a + b == a;
    } else {
      var n := |b| - 1;
      assert (a + b)[..|a + b| - 1] == a + b[..n];
      KeepLettersAndSpacesAppend(a, b[..n]);
    }
  }

  /** A string with no a-z and no whitespace is deleted entirely. */
  lemma {:induction false} KeepLettersAndSpacesDropsAll(s: string)
    requires forall i :: 0 <= i < |s| ==> !IsKept(s[i])
    ensures KeepLettersAndSpaces(s) == []
  {
    if s != [] {
      KeepLettersAndSpacesDropsAll(s[..|s| - 1]);
    }
  }

  /** A string made only of a-z and whitespace is left as it is. */
  lemma {:induction false} KeepLettersAndSpacesKeepsClean(s: string)
    requires forall i :: 0 <= i < |s| ==> IsKept(s[i])
    ensures KeepLettersAndSpaces(s) == s
  {
    if s != [] {
      KeepLettersAndSpacesKeepsClean(s[..|s| - 1]);
      assert s == s[..|s| - 1] + [s[|s| - 1]];
    }
  }

  /** The length of the longest all-whitespace prefix of s. */
  function LeadingSpaces(s: string): (k: nat)
    ensures k <= |s|
    ensures forall j :: 0 <= j < k ==> IsSpace(s[j])
    ensures k < |s| ==> !IsSpace(s[k])
  {
    if s == [] || !IsSpace(s[0]) then 0 else 1 + LeadingSpaces(s[1..])
  }

  /** The length of the longest all-whitespace suffix of s. */
  function TrailingSpaces(s: string): (k: nat)
    ensures k <= |s|
    ensures forall j :: |s| - k <= j < |s| ==> IsSpace(s[j])
    ensures k < |s| ==> !IsSpace(s[|s| - 1 - k])
  {
    if s == [] || !IsSpace(s[|s| - 1]) then 0 else 1 + TrailingSpaces(s[..|s| - 1])
  }

  /** str.strip(): s without its whitespace prefix and suffix. The result
      is the one slice of s that neither starts nor ends with whitespace
      and that only whitespace surrounds. */
  function Strip(s: string): (r: string)
    ensures r == [] || (!IsSpace(r[0]) && !IsSpace(r[|r| - 1]))
    ensures LeadingSpaces(s) + |r| <= |s|
    ensures r == s[LeadingSpaces(s)..LeadingSpaces(s) + |r|]
    ensures forall j :: LeadingSpaces(s) + |r| <= j < |s| ==> IsSpace(s[j])
    ensures r == [] <==> forall j :: 0 <= j < |s| ==> IsSpace(s[j])
  {
    var a := LeadingSpaces(s);
    var rest := s[a..];
    var r := rest[..|rest| - TrailingSpaces(rest)];
    assert r == s[a..a + |r|];
    r
  }

  /** `if item.endswith('s'): item = item[:-1]` -- at most one 's' is
      dropped, and only from the end. */
  function DropTrailingS(s: string): (r: string)
    ensures |r| <= |s| && r == s[..|r|]
    ensures |r| < |s| <==> (|s| > 0 && s[|s| - 1] == 's')
    ensures |s| - 1 <= |r|
  {
    if |s| > 0 && s[|s| - 1] == 's' then s[..|s| - 1] else s
  }

  /** The per-item cleaning chain of normalize_ingredient. The token
      holds only a-z and whitespace, never starts with whitespace (so it
      starts with a letter), and is never longer than the raw item. */
  function Clean(item: string): (token: string)
    ensures forall i :: 0 <= i < |token| ==> IsKept(token[i])
    ensures token == [] || IsLower(token[0])
    ensures |token| <= |item|
  {
    var stripped := Strip(KeepLettersAndSpaces(Lower(item)));
    assert forall i :: 0 <= i < |stripped| ==> IsKept(stripped[i]);
    DropTrailingS(stripped)
  }

  /** What the token set promises of each of its elements. */
  predicate IsToken(t: string) {
    |t| > 2 && IsLower(t[0]) && forall i :: 0 <= i < |t| ==> IsKept(t[i])
  }

  /** The items of a list, each passed through f (the cleaning chain,
      in Tokens below). */
  ghost function MapEach(items: seq<string>, f: string -> string): (out: seq<string>)
    ensures |out| == |items|
    ensures forall i :: 0 <= i < |items| ==> out[i] == f(items[i])
  {
    seq(|items|, i requires 0 <= i < |items| => f(items[i]))
  }

  /** The strings of a list that are longer than two characters, gathered
      into a set one by one. */
  ghost function Collect(cleaned: seq<string>): (ts: set<string>)
    ensures |ts| <= |cleaned|
  {
    if cleaned == [] then {}
    else
      var last := cleaned[|cleaned| - 1];
      var earlier := Collect(cleaned[..|cleaned| - 1]);
      if |last| > 2 && last !in earlier then earlier + {last} else earlier
  }

  /** Extending the list by one item extends the mapped list by that
      item's image. */
  lemma MapEachSnoc(items: seq<string>, f: string -> string, i: int)
    requires 0 <= i < |items|
    ensures MapEach(items[..i + 1], f) == MapEach(items[..i], f) + [f(items[i])]
  {
    assert items[..i + 1][..i] == items[..i];
  }

  /** Collecting one more string adds it when it is longer than two
      characters. */
  lemma CollectSnoc(cleaned: seq<string>, x: string)
    ensures Collect(cleaned + [x]) == if |x| > 2 then Collect(cleaned) + {x} else Collect(cleaned)
  {
    assert (cleaned + [x])[..|cleaned|] == cleaned;
  }

  /** Every string of the list longer than two characters is collected. */
  lemma {:induction false} CollectComplete(cleaned: seq<string>, i: int)
    requires 0 <= i < |cleaned| && |cleaned[i]| > 2
    ensures cleaned[i] in Collect(cleaned)
  {
    var n := |cleaned| - 1;
    if i < n {
      assert cleaned[..n][i] == cleaned[i];
      CollectComplete(cleaned[..n], i);
    }
  }

  /** Every collected string is a string of the list longer than two
      characters. */
  lemma {:induction false} CollectSound(cleaned: seq<string>, t: string)
    requires t in Collect(cleaned)
    ensures |t| > 2 && exists i :: 0 <= i < |cleaned| && cleaned[i] == t
  {
    var n := |cleaned| - 1;
    if t in Collect(cleaned[..n]) {
      CollectSound(cleaned[..n], t);
      var i :| 0 <= i < n && cleaned[..n][i] == t;
      assert cleaned[i] == t;
    } else {
      assert cleaned[n] == t;
    }
  }

  /** Item i of the list maps under f to t, and t is longer than two
      characters. */
  ghost predicate MapsTo(items: seq<string>, f: string -> string, i: int, t: string) {
    0 <= i < |items| && |f(items[i])| > 2 && f(items[i]) == t
  }

  /** The collected set is exactly { f(x) | x in items, |f(x)| > 2 }. */
  lemma CollectMapEach(items: seq<string>, f: string -> string, t: string)
    ensures t in Collect(MapEach(items, f)) <==> exists i :: MapsTo(items, f, i, t)
  {
    var mapped := MapEach(items, f);
    if t in Collect(mapped) {
      CollectSound(mapped, t);
      var i :| 0 <= i < |mapped| && mapped[i] == t;
      assert MapsTo(items, f, i, t);
    }
    if exists i :: MapsTo(items, f, i, t) {
      var i :| MapsTo(items, f, i, t);
      CollectComplete(mapped, i);
    }
  }

  /** The token set of a raw ingredient list: the cleaned items that are
      longer than two characters. It never has more elements than the
      list has items. */
  ghost function Tokens(items: seq<string>): (ts: set<string>)
    ensures |ts| <= |items|
  {
    Collect(MapEach(items, Clean))
  }

  /** Item i of the list cleans to the token t. */
  predicate CleansTo(items: seq<string>, i: int, t: string) {
    0 <= i < |items| && |Clean(items[i])| > 2 && Clean(items[i]) == t
  }

  /** The token set is exactly { Clean(x) | x in items, |Clean(x)| > 2 }. */
  lemma TokensCharacterised(items: seq<string>, t: string)
    ensures t in Tokens(items) <==> exists i :: CleansTo(items, i, t)
  {
    CollectMapEach(items, Clean, t);
    assert forall i :: MapsTo(items, Clean, i, t) <==> CleansTo(items, i, t);
  }

  /** Every token is at least three characters long, starts with a letter
      a-z and holds nothing but a-z and whitespace. */
  lemma TokensAreTokens(items: seq<string>)
    ensures forall t :: t in Tokens(items) ==> IsToken(t)
  {
    forall t | t in Tokens(items)
      ensures IsToken(t)
    {
      TokensCharacterised(items, t);
    }
  }

  /** normalize_ingredient: clean every item and collect those longer
      than two characters. The set never has more elements than the list. */
  method NormalizeIngredient(items: seq<string>) returns (tokens: set<string>)
    ensures tokens == Tokens(items)
    ensures |tokens| <= |items|
    ensures forall t :: t in tokens ==> IsToken(t)
  {
    tokens := {};
    for i := 0 to |items|
      invariant tokens == Collect(MapEach(items[..i], Clean))
      invariant |tokens| <= i
    {
      var item := Clean(items[i]);
      MapEachSnoc(items, Clean, i);
      CollectSnoc(MapEach(items[..i], Clean), item);
      if |item| > 2 {
        if item !in tokens {
          tokens := tokens + {item};
        }
      }
    }
    assert items[..|items|] == items;
    TokensAreTokens(items);
  }

  /** An item with no letter at all (digits, punctuation, whitespace)
      cleans to the empty string. */
  lemma NoLetterCleansToEmpty(item: string)
    requires forall i :: 0 <= i < |item| ==> !IsUpper(item[i]) && !IsLower(item[i])
    ensures Clean(item) == []
  {
    var lowered := Lower(item);
    var kept := KeepLettersAndSpaces(lowered);
    forall j | 0 <= j < |kept|
      ensures IsSpace(kept[j])
    {
      var c := kept[j];
      KeepLettersAndSpacesCounts(lowered, c);
      assert c in multiset(kept);
      assert c in lowered;
      var k :| 0 <= k < |lowered| && lowered[k] == c;
      assert LowerChar(item[k]) == c;
    }
  }

  /** A list whose items hold no letter yields no token. */
  lemma NoLetterNoTokens(items: seq<string>)
    requires forall i, j :: 0 <= i < |items| && 0 <= j < |items[i]|
               ==> !IsUpper(items[i][j]) && !IsLower(items[i][j])
    ensures Tokens(items) == {}
  {
    forall t | t in Tokens(items)
      ensures false
    {
      TokensCharacterised(items, t);
      var i :| CleansTo(items, i, t);
      NoLetterCleansToEmpty(items[i]);
    }
  }

  /** Lower-casing first changes nothing: cleaning ignores case. */
  lemma CleanIgnoresCase(item: string)
    ensures Clean(Lower(item)) == Clean(item)
  {
    assert Lower(Lower(item)) == Lower(item);
  }

  /** Lower-casing works character by character, so it distributes over
      concatenation. */
  lemma LowerAppend(a: string, b: string)
    ensures Lower(a + b) == Lower(a) + Lower(b)
  {
    assert forall i :: 0 <= i < |a + b| ==> Lower(a + b)[i] == (Lower(a) + Lower(b))[i];
  }

  /** A leading quantity (digits, punctuation) and the space after it go,
      while every word after it stays: "2 cups Flour" cleans to
      "cups flour", not to "flour". */
  lemma CleanDropsQuantity(quantity: string, words: string)
    requires forall i :: 0 <= i < |quantity| ==> !IsKept(quantity[i]) && !IsUpper(quantity[i])
    requires IsStableWord(Lower(words))
    ensures Clean(quantity + " " + words) == Lower(words)
  {
    var lw := Lower(words);
    LowerQuantityLine(quantity, words);
    KeepQuantityLine(quantity, lw);
    StripOneSpace(lw);
  }

  lemma LowerQuantityLine(quantity: string, words: string)
    requires forall i :: 0 <= i < |quantity| ==> !IsUpper(quantity[i])
    ensures Lower(quantity + " " + words) == quantity + " " + Lower(words)
  {
    LowerAppend(quantity + " ", words);
    LowerAppend(quantity, " ");
    assert Lower(quantity) == quantity;
    assert Lower(" ") == " ";
  }

  lemma KeepQuantityLine(quantity: string, lw: string)
    requires forall i :: 0 <= i < |quantity| ==> !IsKept(quantity[i])
    requires forall i :: 0 <= i < |lw| ==> IsKept(lw[i])
    ensures KeepLettersAndSpaces(quantity + " " + lw) == " " + lw
  {
    KeepLettersAndSpacesAppend(quantity + " ", lw);
    KeepLettersAndSpacesAppend(quantity, " ");
    KeepLettersAndSpacesDropsAll(quantity);
    KeepLettersAndSpacesKeepsClean(lw);
    assert KeepLettersAndSpaces(" ") == " ";
  }

  lemma StripOneSpace(lw: string)
    requires IsStableWord(lw)
    ensures DropTrailingS(Strip(" " + lw)) == lw
  {
    var kept := " " + lw;
    assert LeadingSpaces(kept) == 1;
    assert kept[1..] == lw;
    assert TrailingSpaces(lw) == 0;
  }

  /** A token that ends neither in 's' nor in whitespace is a fixed point
      of the cleaning chain. */
  lemma CleanKeepsStableToken(t: string)
    requires IsToken(t)
    requires t[|t| - 1] != 's' && !IsSpace(t[|t| - 1])
    ensures Clean(t) == t
  {
    CleanKeepsLowerWord(t);
  }

  /** An item of a-z and inner spaces only loses at most its final 's'. */
  lemma CleanKeepsLowerWord(w: string)
    requires |w| > 0 && IsLower(w[0]) && !IsSpace(w[|w| - 1])
    requires forall i :: 0 <= i < |w| ==> IsKept(w[i])
    ensures Clean(w) == if w[|w| - 1] == 's' then w[..|w| - 1] else w
  {
    assert Lower(w) == w;
    KeepLettersAndSpacesKeepsClean(w);
    assert LeadingSpaces(w) == 0;
    assert TrailingSpaces(w) == 0;
    assert Strip(w) == w;
  }

  /** A word of a-z and inner spaces that does not end in 's'. */
  predicate IsStableWord(w: string) {
    |w| > 0 && IsLower(w[0]) && !IsSpace(w[|w| - 1]) && w[|w| - 1] != 's'
    && forall i :: 0 <= i < |w| ==> IsKept(w[i])
  }

  /** A list of stable words is its own cleaned list. */
  lemma StableWordsClean(items: seq<string>)
    requires forall i :: 0 <= i < |items| ==> IsStableWord(items[i])
    ensures MapEach(items, Clean) == items
  {
    forall i | 0 <= i < |items|
      ensures Clean(items[i]) == items[i]
    {
      CleanKeepsLowerWord(items[i]);
    }
  }

  /** Only one trailing 's' is dropped, so cleaning is not idempotent:
      "grass" cleans to "gras", which cleans to "gra". */
  lemma CleanNotIdempotent()
    ensures Clean("grass") == "gras"
    ensures Clean(Clean("grass")) == "gra"
  {
    CleanGrass();
    CleanGras();
  }

  lemma CleanGrass()
    ensures Clean("grass") == "gras"
  {
    CleanKeepsLowerWord("grass");
    assert "grass"[..4] == "gras";
  }

  lemma CleanGras()
    ensures Clean("gras") == "gra"
  {
    CleanKeepsLowerWord("gras");
    assert "gras"[..3] == "gra";
  }

  /** A token may end in whitespace: "salt s" strips to itself and then
      loses its final 's'. */
  lemma TokenMayEndInSpace()
    ensures Clean("salt s") == "salt "
    ensures IsToken("salt ")
  {
    CleanKeepsLowerWord("salt s");
  }

  /** The length filter: "a" and "ok" are dropped, "oil" is kept. */
  lemma ShortItemsDropped()
    ensures Tokens(["a", "ok", "oil"]) == {"oil"}
  {
    var items := ["a", "ok", "oil"];
    assert IsStableWord(items[0]) && IsStableWord(items[1]) && IsStableWord(items[2]);
    StableWordsClean(items);
    CollectShortWords();
  }

  lemma CollectShortWords()
    ensures Collect(["a", "ok", "oil"]) == {"oil"}
  {
    CollectSnoc([], "a");
    CollectSnoc(["a"], "ok");
    CollectSnoc(["a", "ok"], "oil");
    assert ["a"] == [] + ["a"];
    assert ["a", "ok"] == ["a"] + ["ok"];
    assert ["a", "ok", "oil"] == ["a", "ok"] + ["oil"];
  }
}
