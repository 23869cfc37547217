/**
 * The bag-of-words client of the table: for every token of every document,
 * the list of indices of the documents it occurs in.
 */
module BagOfWords {
  import opened Wrappers
  import opened ChainHash
  import opened Text

  /** Initial capacity of the table the client builds. */
  const BagCapacity: int := 13

  /** Token `w` occurs in document `d`. */
  ghost predicate OccursIn(documents: seq<string>, w: string, d: int)
  {
    0 <= d < |documents| && w in Tokens(documents[d])
  }

  /** Strictly increasing, hence free of duplicates. */
  ghost predicate StrictlyIncreasing(s: seq<int>)
  {
    forall i, j :: 0 <= i < j < |s| ==> s[i] < s[j]
  }

  /**
   * The table the client holds after the documents before `d`, plus the
   * first tokens `done` of document `d`, have been added.
   */
  ghost predicate Indexed(documents: seq<string>, bow: map<string, seq<int>>, d: int, done: seq<string>)
  {
    && (forall w :: w in bow <==> (exists e :: 0 <= e < d && OccursIn(documents, w, e)) || w in done)
    && (forall w, e :: w in bow ==>
          (e in bow[w] <==> (0 <= e < d && OccursIn(documents, w, e)) || (e == d && w in done)))
    && (forall w :: w in bow ==> |bow[w]| > 0 && StrictlyIncreasing(bow[w]))
    && (forall w, i :: w in bow && 0 <= i < |bow[w]| ==> bow[w][i] <= d)
  }

  /**
   * bagOfWords: maps every token to the increasing list of the indices of
   * the documents it occurs in.
   */
  method BagOfWords(hash: string -> nat, documents: seq<string>) returns (bow: Table<string, seq<int>>)
    ensures Valid(hash, bow)
    ensures forall w :: w in Contents(bow) <==> exists d :: OccursIn(documents, w, d)
    ensures forall w, d :: w in Contents(bow) ==> (d in Contents(bow)[w] <==> OccursIn(documents, w, d))
    ensures forall w :: w in Contents(bow) ==> |Contents(bow)[w]| > 0 && StrictlyIncreasing(Contents(bow)[w])
  {
    bow := Create(hash, BagCapacity);
    for docIndex := 0 to |documents|
      invariant Valid(hash, bow)
      invariant Indexed(documents, Contents(bow), docIndex, [])
    {
      bow := AddDocument(hash, bow, documents, docIndex);
    }
    IndexedAll(documents, Contents(bow));
  }

  /** The body of the client's outer loop: record every token of document `d`. */
  method AddDocument(hash: string -> nat, bow: Table<string, seq<int>>, documents: seq<string>, d: int)
    returns (bow': Table<string, seq<int>>)
    requires 0 <= d < |documents|
    requires Valid(hash, bow)
    requires Indexed(documents, Contents(bow), d, [])
    ensures Valid(hash, bow')
    ensures Indexed(documents, Contents(bow'), d + 1, [])
  {
    bow' := bow;
    var words := Tokenize(documents[d]);
    for k := 0 to |words|
      invariant Valid(hash, bow')
      invariant Indexed(documents, Contents(bow'), d, words[..k])
    {
      AddOccurrence(documents, Contents(bow'), d, words, k);
      bow' := AddWord(hash, bow', words[k], d);
    }
    assert words[..|words|] == words;
    ExtendDocuments(documents, Contents(bow'), d);
  }

  /** After the last document the index is exact. */
  lemma IndexedAll(documents: seq<string>, bow: map<string, seq<int>>)
    requires Indexed(documents, bow, |documents|, [])
    ensures forall w :: w in bow <==> exists d :: OccursIn(documents, w, d)
    ensures forall w, d :: w in bow ==> (d in bow[w] <==> OccursIn(documents, w, d))
    ensures forall w :: w in bow ==> |bow[w]| > 0 && StrictlyIncreasing(bow[w])
  {
  }

  /**
   * The body of the client's inner loop: append document `d` to the list of
   * `word`, unless it is there already, or start the list with it.
   */
  method AddWord(hash: string -> nat, bow: Table<string, seq<int>>, word: string, d: int)
    returns (bow': Table<string, seq<int>>)
    requires Valid(hash, bow)
    ensures Valid(hash, bow')
    ensures Contents(bow') == Contents(bow)[word := WithDocument(Contents(bow), word, d)]
  {
    if Contains(hash, bow, word) {
      var docList := Get(hash, bow, word).value;
      if d !in docList {
        docList := docList + [d];
      }
      bow' := Set(hash, bow, word, docList);
    } else {
      var docList := [d];
      bow' := Set(hash, bow, word, docList);
    }
  }

  /** Finishing document `d` is the same as starting document `d + 1`. */
  lemma ExtendDocuments(documents: seq<string>, bow: map<string, seq<int>>, d: int)
    requires 0 <= d < |documents|
    requires Indexed(documents, bow, d, Tokens(documents[d]))
    ensures Indexed(documents, bow, d + 1, [])
  {
    forall w | w in bow
      ensures (exists e :: 0 <= e < d + 1 && OccursIn(documents, w, e))
    {
      if w in Tokens(documents[d]) {
        assert OccursIn(documents, w, d);
      }
    }
  }

  /** The list the client stores for `w` after seeing it in document `d`. */
  ghost function WithDocument(bow: map<string, seq<int>>, w: string, d: int): seq<int>
  {
    if w !in bow then [d]
    else if d in bow[w] then bow[w]
    else bow[w] + [d]
  }

  /** Recording token `k` of document `d` keeps the index exact. */
  lemma AddOccurrence(documents: seq<string>, bow: map<string, seq<int>>, d: int, words: seq<string>, k: int)
    requires 0 <= k < |words|
    requires Indexed(documents, bow, d, words[..k])
    ensures Indexed(documents, bow[words[k] := WithDocument(bow, words[k], d)], d, words[..k + 1])
  {
    var w := words[k];
    assert words[..k + 1] == words[..k] + [w];
    if w in bow && d !in bow[w] {
      var s := bow[w] + [d];
      forall i, j | 0 <= i < j < |s| ensures s[i] < s[j] {
        if j == |s| - 1 {
          assert bow[w][i] in bow[w];
        }
      }
    }
  }
}
