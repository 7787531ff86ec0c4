/** The inverted index: a map from each token to the ids of the recipes
    whose token set holds it, built by appending ids in recipe order. */
module InvertedIndex {

  /** One recipe as the index loop sees it: its id and its token set. */
  datatype Row = Row(id: int, tokens: set<string>)

  type Index = map<string, seq<int>>

  /** The ids of the rows whose token set holds t, in row order, each
      row contributing at most once. */
  function Posting(rows: seq<Row>, t: string): seq<int>
  {
    if rows == [] then []
    else
      var last := rows[|rows| - 1];
      Posting(rows[..|rows| - 1], t) + (if t in last.tokens then [last.id] else [])
  }

  /** Every token of every row. */
  function Vocabulary(rows: seq<Row>): set<string>
  {
    if rows == [] then {} else Vocabulary(rows[..|rows| - 1]) + rows[|rows| - 1].tokens
  }

  /** The sum of the sizes of the rows' token sets. */
  function TokenTotal(rows: seq<Row>): nat
  {
    if rows == [] then 0 else TokenTotal(rows[..|rows| - 1]) + |rows[|rows| - 1].tokens|
  }

  /** The sum of the lengths of the lists stored under the given keys. */
  ghost function SumLengths(index: Index, keys: set<string>): nat
    requires keys <= index.Keys
    decreases keys
  {
    if keys == {} then 0
    else
      var k :| k in keys;
      |index[k]| + SumLengths(index, keys - {k})
  }

  /** The number of (token, id) entries of the index. */
  ghost function EntryCount(index: Index): nat
  {
    SumLengths(index, index.Keys)
  }

  /** The sum can be split at any key, whichever key the definition picks. */
  lemma {:induction false} SumLengthsRemove(index: Index, keys: set<string>, k: string)
    requires keys <= index.Keys && k in keys
    ensures SumLengths(index, keys) == |index[k]| + SumLengths(index, keys - {k})
    decreases keys
  {
    var j :| j in keys && SumLengths(index, keys) == |index[j]| + SumLengths(index, keys - {j});
    if j != k {
      SumLengthsRemove(index, keys - {j}, k);
      SumLengthsRemove(index, keys - {k}, j);
      assert keys - {j} - {k} == keys - {k} - {j};
    }
  }

  /** Two indexes that agree on the keys summed have the same sum. */
  lemma {:induction false} SumLengthsAgree(a: Index, b: Index, keys: set<string>)
    requires keys <= a.Keys && keys <= b.Keys
    requires forall k :: k in keys ==> |a[k]| == |b[k]|
    ensures SumLengths(a, keys) == SumLengths(b, keys)
    decreases keys
  {
    if keys != {} {
      var k :| k in keys && SumLengths(a, keys) == |a[k]| + SumLengths(a, keys - {k});
      SumLengthsRemove(b, keys, k);
      SumLengthsAgree(a, b, keys - {k});
    }
  }

  /** Appending one id under token t adds exactly one entry. */
  lemma AppendAddsOneEntry(index: Index, t: string, id: int)
    ensures EntryCount(index[t := (if t in index then index[t] else []) + [id]])
         == EntryCount(index) + 1
  {
    var list := if t in index then index[t] else [];
    var next := index[t := list + [id]];
    var rest := index.Keys - {t};
    assert next.Keys - {t} == rest;
    SumLengthsRemove(next, next.Keys, t);
    SumLengthsAgree(index, next, rest);
    if t in index {
      SumLengthsRemove(index, index.Keys, t);
    } else {
      assert rest == index.Keys;
    }
  }

  /** A token has a non-empty list exactly when some row holds it. */
  lemma {:induction false} PostingNonEmpty(rows: seq<Row>, t: string)
    ensures Posting(rows, t) != [] <==> t in Vocabulary(rows)
  {
    if rows != [] {
      PostingNonEmpty(rows[..|rows| - 1], t);
    }
  }

  /** An id is listed under t exactly when a row with that id holds t. */
  lemma {:induction false} PostingMembership(rows: seq<Row>, t: string, id: int)
    ensures id in Posting(rows, t)
        <==> exists i :: 0 <= i < |rows| && rows[i].id == id && t in rows[i].tokens
  {
    if rows != [] {
      var n := |rows| - 1;
      var earlier := rows[..n];
      PostingMembership(earlier, t, id);
      if id in Posting(rows, t) && id !in Posting(earlier, t) {
        assert rows[n].id == id && t in rows[n].tokens;
      }
      if id in Posting(earlier, t) {
        var i :| 0 <= i < n && earlier[i].id == id && t in earlier[i].tokens;
        assert rows[i] == earlier[i];
      }
      if exists i :: 0 <= i < |rows| && rows[i].id == id && t in rows[i].tokens {
        var i :| 0 <= i < |rows| && rows[i].id == id && t in rows[i].tokens;
        if i < n {
          assert earlier[i] == rows[i];
        }
      }
    }
  }

  /** Lists follow row order: the rows of a later batch come after those
      of an earlier one. */
  lemma {:induction false} PostingConcat(a: seq<Row>, b: seq<Row>, t: string)
    ensures Posting(a + b, t) == Posting(a, t) + Posting(b, t)
  {
    if b == [] {
      assert a + b == a;
    } else {
      var n := |b| - 1;
      assert (a + b)[..|a + b| - 1] == a + b[..n];
      PostingConcat(a, b[..n], t);
    }
  }

  /** Two rows that both hold t: the list of t is their ids, in row order. */
  lemma PostingOfTwo(first: Row, second: Row, t: string)
    requires t in first.tokens && t in second.tokens
    ensures Posting([first, second], t) == [first.id, second.id]
  {
    var rows := [first, second];
    assert rows[..1] == [first];
    assert [first][..0] == [];
    assert Posting([first], t) == [first.id];
    assert Posting(rows, t) == Posting(rows[..1], t) + [second.id];
  }

  /** Ids that are distinct across rows never repeat within a list. */
  lemma {:induction false} PostingDistinct(rows: seq<Row>, t: string)
    requires forall i, j :: 0 <= i < j < |rows| ==> rows[i].id != rows[j].id
    ensures forall p, q :: 0 <= p < q < |Posting(rows, t)| ==> Posting(rows, t)[p] != Posting(rows, t)[q]
  {
    if rows != [] {
      var n := |rows| - 1;
      var earlier := rows[..n];
      PostingDistinct(earlier, t);
      if t in rows[n].tokens {
        var ps := Posting(earlier, t);
        forall p | 0 <= p < |ps|
          ensures ps[p] != rows[n].id
        {
          PostingMembership(earlier, t, ps[p]);
        }
      }
    }
  }

  /** Every list of the index is the Posting of its token over the rows. */
  ghost predicate ListsMatch(index: Index, rows: seq<Row>)
  {
    forall t :: t in index ==> index[t] == Posting(rows, t)
  }

  /** Part way through a row: every list holds the ids of the rows
      already done, followed by this row's id for the tokens already
      visited. */
  ghost predicate ListsSoFar(index: Index, done: seq<Row>, visited: set<string>, id: int)
  {
    forall t :: t in index ==> index[t] == Posting(done, t) + (if t in visited then [id] else [])
  }

  /** One append of the inner loop keeps ListsSoFar. */
  lemma AppendKeepsListsSoFar(index: Index, done: seq<Row>, visited: set<string>, id: int, t: string)
    requires ListsSoFar(index, done, visited, id)
    requires t !in visited && (t in index || Posting(done, t) == [])
    ensures ListsSoFar(index[t := (if t in index then index[t] else []) + [id]], done, visited + {t}, id)
  {
  }

  /** Finishing a row turns ListsSoFar into the lists of one more row. */
  lemma RowDone(index: Index, done: seq<Row>, row: Row)
    requires ListsSoFar(index, done, row.tokens, row.id)
    ensures ListsMatch(index, done + [row])
  {
    assert (done + [row])[..|done|] == done;
  }

  /** One more row adds its tokens to the vocabulary and its set size to
      the total. */
  lemma SnocTotals(done: seq<Row>, row: Row)
    ensures Vocabulary(done + [row]) == Vocabulary(done) + row.tokens
    ensures TokenTotal(done + [row]) == TokenTotal(done) + |row.tokens|
  {
    assert (done + [row])[..|done|] == done;
  }

  /** The state of the inner loop with the tokens of `pending` still to
      visit: `next` holds `index` plus this row's id under every token
      already visited. */
  ghost predicate RowInProgress(index: Index, next: Index, done: seq<Row>, row: Row, pending: set<string>)
  {
    && pending <= row.tokens
    && next.Keys == Vocabulary(done) + (row.tokens - pending)
    && ListsSoFar(next, done, row.tokens - pending, row.id)
    && EntryCount(next) == EntryCount(index) + |row.tokens - pending|
  }

  /** Before the first token of a row nothing has been appended. */
  lemma StartRow(index: Index, done: seq<Row>, row: Row)
    requires index.Keys == Vocabulary(done) && ListsMatch(index, done)
    ensures RowInProgress(index, index, done, row, row.tokens)
  {
    assert row.tokens - row.tokens == {};
  }

  /** Visiting one more token of the row keeps RowInProgress. */
  lemma VisitToken(index: Index, next: Index, done: seq<Row>, row: Row, pending: set<string>, t: string)
    requires index.Keys == Vocabulary(done)
    requires RowInProgress(index, next, done, row, pending) && t in pending
    ensures RowInProgress(index, next[t := (if t in next then next[t] else []) + [row.id]],
                          done, row, pending - {t})
  {
    var visited := row.tokens - pending;
    if t !in next {
      PostingNonEmpty(done, t);
    }
    AppendAddsOneEntry(next, t, row.id);
    AppendKeepsListsSoFar(next, done, visited, row.id, t);
    assert row.tokens - (pending - {t}) == visited + {t};
  }

  /** After the last token of a row, the index covers one more row. */
  lemma FinishRow(index: Index, next: Index, done: seq<Row>, row: Row)
    requires RowInProgress(index, next, done, row, {})
    ensures next.Keys == Vocabulary(done + [row])
    ensures ListsMatch(next, done + [row])
    ensures EntryCount(next) == EntryCount(index) + |row.tokens|
  {
    assert row.tokens - {} == row.tokens;
    RowDone(next, done, row);
    SnocTotals(done, row);
  }

  /** The inner loop of the index build: append the row's id under each
      token of its set, in whatever order the set yields them, starting
      a token's list when the token is new. */
  method AddRow(index: Index, ghost done: seq<Row>, row: Row) returns (next: Index)
    requires index.Keys == Vocabulary(done)
    requires ListsMatch(index, done)
    ensures next.Keys == Vocabulary(done + [row])
    ensures ListsMatch(next, done + [row])
    ensures EntryCount(next) == EntryCount(index) + |row.tokens|
  {
    next := index;
    var pending := row.tokens;
    StartRow(index, done, row);
    while pending != {}
      invariant RowInProgress(index, next, done, row, pending)
      decreases pending
    {
      var t :| t in pending;
      VisitToken(index, next, done, row, pending, t);
      var list := if t in next then next[t] else [];
      next := next[t := list + [row.id]];
      pending := pending - {t};
    }
    FinishRow(index, next, done, row);
  }

  /** The index-building loop of build_inverted_index: every row's id is
      appended under every token of its set. Each list is exactly the
      Posting of its token, whatever order the sets were visited in, and
      the index holds one entry per (recipe, token) pair. */
  method BuildIndex(rows: seq<Row>) returns (index: Index)
    ensures index.Keys == Vocabulary(rows)
    ensures forall t :: t in index ==> index[t] == Posting(rows, t)
    ensures forall t :: t in index ==> index[t] != []
    ensures EntryCount(index) == TokenTotal(rows)
  {
    index := map[];
    for i := 0 to |rows|
      invariant index.Keys == Vocabulary(rows[..i])
      invariant ListsMatch(index, rows[..i])
      invariant EntryCount(index) == TokenTotal(rows[..i])
    {
      assert rows[..i + 1] == rows[..i] + [rows[i]];
      index := AddRow(index, rows[..i], rows[i]);
      SnocTotals(rows[..i], rows[i]);
    }
    assert rows[..|rows|] == rows;
    forall t | t in index
      ensures index[t] != []
    {
      PostingNonEmpty(rows, t);
    }
  }
}
