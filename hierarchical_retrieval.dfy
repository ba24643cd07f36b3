/** The hierarchical retriever: a search over titles picks the relevant
    titles, a search over chunks filtered to each of them collects candidate
    chunks, and the candidates are ranked by score, truncated and thresholded.
    The two vector stores are values; their similarity search is a function
    given by the caller, with the contract FAISS is relied on to meet. */
module Retrieval {
  import opened Wrappers
  import opened PyStrings
  import opened PyDicts

  // ---------------------------------------------------------------------
  // crop_text
  // ---------------------------------------------------------------------

  /** `crop_text(text)` inside `print_retrieved_items`: newlines become
      spaces; a truthy `crop_length` (not None, not 0) keeps the slice
      `text[:crop_length]` and appends `"..."`. */
  function CropText(text: string, cropLength: Option<int>): (r: string)
    ensures '\n' !in r
  {
    var t := Replace(text, '\n', ' ');
    if cropLength.Some? && cropLength.value != 0 then
      var p := Prefix(t, cropLength.value);
      assert forall i :: 0 <= i < |p| ==> p[i] == t[i];
      assert "..."[0] == '.' && "..."[1] == '.' && "..."[2] == '.';
      p + "..."
    else t
  }

  /** The cropped text, character by character: with a truthy crop length it
      is the first `crop_length` characters (Python slice semantics, so a
      negative length drops characters from the end) followed by `"..."`;
      otherwise it has the length of the text. Either way each kept character
      is the text's own, or a space where the text has a newline. */
  lemma CropTextShape(text: string, cropLength: Option<int>)
    ensures var r := CropText(text, cropLength);
      var keep := if cropLength.None? || cropLength.value == 0 then |text|
                  else if cropLength.value >= 0 then (if cropLength.value <= |text| then cropLength.value else |text|)
                  else if -cropLength.value <= |text| then |text| + cropLength.value else 0;
      var suffix := if cropLength.None? || cropLength.value == 0 then "" else "...";
      |r| == keep + |suffix| && r[keep..] == suffix &&
      forall i :: 0 <= i < keep ==> r[i] == if text[i] == '\n' then ' ' else text[i]
  {
    var r := CropText(text, cropLength);
    var t := Replace(text, '\n', ' ');
    if cropLength.Some? && cropLength.value != 0 {
      var p := Prefix(t, cropLength.value);
      assert r == p + "...";
      assert r[|p|..] == "...";
      assert forall i :: 0 <= i < |p| ==> r[i] == p[i] == t[i];
    }
  }

  // ---------------------------------------------------------------------
  // Vector stores and their search
  // ---------------------------------------------------------------------

  /** A stored document: its text and the `title` entry of its metadata, if any. */
  datatype Doc = Doc(pageContent: string, title: Option<string>)

  /** A vector store, as the documents it was built from, in order. */
  datatype Store = Store(docs: seq<Doc>)

  /** One result of `similarity_search_with_score`: a document and its distance. */
  datatype Hit = Hit(doc: Doc, score: real)

  /** `store.similarity_search_with_score(query, k=k, filter=...)`; the filter
      `{"title": t}` is `Some(t)`. */
  type SearchFn = (Store, string, nat, Option<string>) -> seq<Hit>

  /** Hits in non-decreasing order of distance. */
  predicate Ascending(hs: seq<Hit>)
  {
    forall i, j :: 0 <= i < j < |hs| ==> hs[i].score <= hs[j].score
  }

  /** What a search is relied on to return: at most `k` documents of the store,
      nearest first, each matching the filter when one is given. */
  predicate ValidHits(store: Store, k: nat, filter: Option<string>, hs: seq<Hit>)
  {
    |hs| <= k && Ascending(hs) &&
    forall i :: 0 <= i < |hs| ==> hs[i].doc in store.docs && (filter.Some? ==> hs[i].doc.title == filter)
  }

  /** The search meets that contract on every store, query, `k` and filter. */
  ghost predicate SearchContract(search: SearchFn)
  {
    forall store, query, k, filter :: ValidHits(store, k, filter, search(store, query, k, filter))
  }

  /** `FAISS.from_texts(texts, embeddings, metadatas=...)`: one document per
      text, carrying the metadata at the same position. */
  function FromTexts(texts: seq<string>, titles: seq<Option<string>>): (s: Store)
    requires |texts| == |titles|
    ensures |s.docs| == |texts|
    ensures forall i :: 0 <= i < |texts| ==> s.docs[i] == Doc(texts[i], titles[i])
  {
    Store(seq(|texts|, i requires 0 <= i < |texts| => Doc(texts[i], titles[i])))
  }

  // ---------------------------------------------------------------------
  // prepare_vector_stores
  // ---------------------------------------------------------------------

  /** The title store: one document per key of the corpus, in key order,
      without metadata. */
  function TitleStore(data: Dict<string, seq<string>>): (s: Store)
    ensures |s.docs| == |data|
    ensures forall i :: 0 <= i < |data| ==> s.docs[i] == Doc(data[i].0, None)
  {
    FromTexts(Keys(data), seq(|data|, i => None))
  }

  /** The number of chunks in the corpus. */
  function TotalLen(data: Dict<string, seq<string>>): nat
  {
    if data == [] then 0 else TotalLen(data[..|data| - 1]) + |data[|data| - 1].1|
  }

  /** `all_chunks`: every key's chunks, key after key. */
  function ChunkTexts(data: Dict<string, seq<string>>): (r: seq<string>)
    ensures |r| == TotalLen(data)
  {
    if data == [] then [] else ChunkTexts(data[..|data| - 1]) + data[|data| - 1].1
  }

  /** `chunk_metadata`: for every chunk, `{"title": key}` of the key it came from. */
  function ChunkMetadata(data: Dict<string, seq<string>>): (r: seq<Option<string>>)
    ensures |r| == TotalLen(data)
    ensures forall i :: 0 <= i < |r| ==> r[i].Some?
  {
    if data == [] then []
    else
      var last := data[|data| - 1];
      ChunkMetadata(data[..|data| - 1]) + seq(|last.1|, i => Some(last.0))
  }

  /** The chunk store: one document per chunk, tagged with its key. */
  function ChunkStore(data: Dict<string, seq<string>>): (s: Store)
    ensures |s.docs| == TotalLen(data)
    ensures forall i :: 0 <= i < |s.docs| ==> s.docs[i].title.Some?
  {
    FromTexts(ChunkTexts(data), ChunkMetadata(data))
  }

  /** Chunk `m` of key `j` sits at position `TotalLen(data[..j]) + m`: the
      lists are laid out by key order, then by position within each list. */
  lemma {:induction false} ChunkLayout(data: Dict<string, seq<string>>, j: nat, m: nat)
    requires j < |data| && m < |data[j].1|
    ensures TotalLen(data[..j]) + m < TotalLen(data)
    ensures ChunkTexts(data)[TotalLen(data[..j]) + m] == data[j].1[m]
    ensures ChunkMetadata(data)[TotalLen(data[..j]) + m] == Some(data[j].0)
    decreases |data|
  {
    var init := data[..|data| - 1];
    var last := data[|data| - 1];
    if j == |data| - 1 {
      assert data[..j] == init;
      assert ChunkMetadata(data) == ChunkMetadata(init) + seq(|last.1|, i => Some(last.0));
    } else {
      assert init[..j] == data[..j] && init[j] == data[j];
      ChunkLayout(init, j, m);
      assert ChunkTexts(data) == ChunkTexts(init) + last.1;
      assert ChunkMetadata(data) == ChunkMetadata(init) + seq(|last.1|, i => Some(last.0));
    }
  }

  /** The i-th metadata title is a key whose list holds the i-th chunk. */
  lemma {:induction false} ChunkOwner(data: Dict<string, seq<string>>, i: nat)
    requires i < TotalLen(data)
    ensures ChunkMetadata(data)[i].Some?
    ensures exists j :: 0 <= j < |data| && data[j].0 == ChunkMetadata(data)[i].value && ChunkTexts(data)[i] in data[j].1
    decreases |data|
  {
    var init := data[..|data| - 1];
    var last := data[|data| - 1];
    assert ChunkMetadata(data) == ChunkMetadata(init) + seq(|last.1|, i => Some(last.0));
    if i < TotalLen(init) {
      ChunkOwner(init, i);
      var j :| 0 <= j < |init| && init[j].0 == ChunkMetadata(init)[i].value && ChunkTexts(init)[i] in init[j].1;
      assert data[j] == init[j];
    } else {
      var m := i - TotalLen(init);
      assert ChunkTexts(data)[i] == last.1[m];
      assert data[|data| - 1].0 == ChunkMetadata(data)[i].value;
    }
  }

  // ---------------------------------------------------------------------
  // Ranking: sorted(..., key=score)[:total_chunks], then score <= max_distance
  // ---------------------------------------------------------------------

  /** Inserts `h` after every hit whose score is at most its own. */
  function Insert(s: seq<Hit>, h: Hit): (r: seq<Hit>)
    ensures multiset(r) == multiset(s) + multiset{h}
  {
    if s == [] || s[|s| - 1].score <= h.score then s + [h]
    else
      var init := s[..|s| - 1];
      assert s == init + [s[|s| - 1]];
      Insert(init, h) + [s[|s| - 1]]
  }

  /** `sorted(hits, key=lambda x: x[1])`, a stable sort by insertion. */
  function SortByScore(hs: seq<Hit>): (r: seq<Hit>)
    ensures multiset(r) == multiset(hs)
  {
    if hs == [] then []
    else
      var init := hs[..|hs| - 1];
      assert hs == init + [hs[|hs| - 1]];
      Insert(SortByScore(init), hs[|hs| - 1])
  }

  lemma {:induction false} InsertAscending(s: seq<Hit>, h: Hit)
    requires Ascending(s)
    ensures Ascending(Insert(s, h))
    ensures Insert(s, h) != [] && (Insert(s, h)[|Insert(s, h)| - 1] == h || Insert(s, h)[|Insert(s, h)| - 1] == s[|s| - 1])
  {
    if s == [] || s[|s| - 1].score <= h.score {
    } else {
      var init := s[..|s| - 1];
      InsertAscending(init, h);
      var r' := Insert(init, h);
      assert r'[|r'| - 1].score <= s[|s| - 1].score;
      assert multiset(r') == multiset(init) + multiset{h};
      forall x | x in r' ensures x.score <= s[|s| - 1].score {
        assert x in multiset(r');
        if x != h {
          assert x in multiset(init);
          assert x in init;
        }
      }
    }
  }

  /** The sort returns its input in non-decreasing score order. */
  lemma {:induction false} SortByScoreAscending(hs: seq<Hit>)
    ensures Ascending(SortByScore(hs))
  {
    if hs != [] {
      SortByScoreAscending(hs[..|hs| - 1]);
      InsertAscending(SortByScore(hs[..|hs| - 1]), hs[|hs| - 1]);
    }
  }

  /** The hits of score exactly `v`, in order. */
  function WithScore(hs: seq<Hit>, v: real): seq<Hit>
  {
    if hs == [] then []
    else WithScore(hs[..|hs| - 1], v) + (if hs[|hs| - 1].score == v then [hs[|hs| - 1]] else [])
  }

  lemma {:induction false} WithScoreSnoc(s: seq<Hit>, h: Hit, v: real)
    ensures WithScore(s + [h], v) == WithScore(s, v) + (if h.score == v then [h] else [])
  {
    assert (s + [h])[..|s|] == s;
  }

  lemma {:induction false} InsertWithScore(s: seq<Hit>, h: Hit, v: real)
    requires Ascending(s)
    ensures WithScore(Insert(s, h), v) == WithScore(s, v) + (if h.score == v then [h] else [])
  {
    if s == [] || s[|s| - 1].score <= h.score {
      WithScoreSnoc(s, h, v);
    } else {
      var init := s[..|s| - 1];
      var last := s[|s| - 1];
      var hv: seq<Hit> := if h.score == v then [h] else [];
      var lv: seq<Hit> := if last.score == v then [last] else [];
      AscendingPrefix(s, |s| - 1);
      // `h` goes before `last` only when its score is smaller, so at most one
      // of the two has score `v`.
      assert hv == [] || lv == [];
      calc {
        WithScore(Insert(s, h), v);
        WithScore(Insert(init, h) + [last], v);
        { WithScoreSnoc(Insert(init, h), last, v); }
        WithScore(Insert(init, h), v) + lv;
        { InsertWithScore(init, h, v); }
        WithScore(init, v) + hv + lv;
        WithScore(init, v) + lv + hv;
        { WithScoreSnoc(init, last, v); assert init + [last] == s; }
        WithScore(s, v) + hv;
      }
    }
  }

  /** Stability: among hits with equal scores the sort keeps the input order. */
  lemma {:induction false} SortByScoreStable(hs: seq<Hit>, v: real)
    ensures WithScore(SortByScore(hs), v) == WithScore(hs, v)
  {
    if hs != [] {
      var init := hs[..|hs| - 1];
      SortByScoreStable(init, v);
      SortByScoreAscending(init);
      InsertWithScore(SortByScore(init), hs[|hs| - 1], v);
    }
  }

  /** `[chunk for chunk in hits if chunk[1] <= max_distance]` */
  function WithinDistance(hs: seq<Hit>, maxDistance: real): (r: seq<Hit>)
    ensures |r| <= |hs|
    ensures forall i :: 0 <= i < |r| ==> r[i].score <= maxDistance
  {
    if hs == [] then []
    else
      var last := hs[|hs| - 1];
      WithinDistance(hs[..|hs| - 1], maxDistance) + (if last.score <= maxDistance then [last] else [])
  }

  /** The threshold keeps exactly the hits within `maxDistance`. */
  lemma {:induction false} WithinDistanceMembers(hs: seq<Hit>, maxDistance: real)
    ensures forall x :: x in WithinDistance(hs, maxDistance) <==> x in hs && x.score <= maxDistance
  {
    if hs != [] {
      var init := hs[..|hs| - 1];
      var last := hs[|hs| - 1];
      assert hs == init + [last];
      WithinDistanceMembers(init, maxDistance);
    }
  }

  /** Truncating twice is truncating to the shorter length. */
  lemma PrefixOfPrefix<T>(s: seq<T>, a: nat, b: nat)
    requires a <= b <= |s|
    ensures s[..b][..a] == s[..a]
  {
  }

  /** A prefix of ascending hits is ascending. */
  lemma AscendingPrefix(hs: seq<Hit>, p: nat)
    requires Ascending(hs) && p <= |hs|
    ensures Ascending(hs[..p])
  {
    forall i, j | 0 <= i < j < p ensures hs[..p][i].score <= hs[..p][j].score {
      assert hs[..p][i] == hs[i] && hs[..p][j] == hs[j];
    }
  }

  /** Where an ascending run of hits crosses a threshold is unique: a cut
      point `b` of `hs[..p]` is the cut point `a` of `hs`, or `p` if that comes
      first. */
  lemma SplitPoint(hs: seq<Hit>, maxDistance: real, a: nat, b: nat, p: nat)
    requires a <= |hs| && b <= p <= |hs|
    requires forall i :: 0 <= i < a ==> hs[i].score <= maxDistance
    requires forall i :: a <= i < |hs| ==> hs[i].score > maxDistance
    requires forall i :: 0 <= i < b ==> hs[i].score <= maxDistance
    requires forall i :: b <= i < p ==> hs[i].score > maxDistance
    ensures b == if p <= a then p else a
  {
    assert b < p ==> hs[b].score > maxDistance;
    var i := if a < b then a else 0;
    assert i < |hs| ==> hs[i].score <= maxDistance || a >= b;
  }

  /** Hits all within `maxDistance` are all kept. */
  lemma {:induction false} WithinDistanceAll(hs: seq<Hit>, maxDistance: real)
    requires forall i :: 0 <= i < |hs| ==> hs[i].score <= maxDistance
    ensures WithinDistance(hs, maxDistance) == hs
  {
    if hs != [] {
      var init := hs[..|hs| - 1];
      forall i | 0 <= i < |init| ensures init[i].score <= maxDistance {
        assert init[i] == hs[i];
      }
      WithinDistanceAll(init, maxDistance);
      assert init + [hs[|hs| - 1]] == hs;
    }
  }

  /** On ascending hits the threshold keeps a prefix: exactly the hits up to
      the first one farther than `maxDistance`. */
  lemma {:induction false} WithinDistanceAscending(hs: seq<Hit>, maxDistance: real)
    requires Ascending(hs)
    ensures var w := WithinDistance(hs, maxDistance);
      w == hs[..|w|] &&
      (forall i :: 0 <= i < |w| ==> hs[i].score <= maxDistance) &&
      (forall i :: |w| <= i < |hs| ==> hs[i].score > maxDistance)
  {
    if hs != [] {
      var init := hs[..|hs| - 1];
      var last := hs[|hs| - 1];
      if last.score <= maxDistance {
        forall i | 0 <= i < |hs| ensures hs[i].score <= maxDistance {
          if i < |init| {
            assert hs[i].score <= last.score;
          }
        }
        WithinDistanceAll(hs, maxDistance);
        assert hs[..|hs|] == hs;
      } else {
        AscendingPrefix(hs, |hs| - 1);
        WithinDistanceAscending(init, maxDistance);
        var w' := WithinDistance(init, maxDistance);
        calc {
          WithinDistance(hs, maxDistance);
          w';
          init[..|w'|];
          { PrefixOfPrefix(hs, |w'|, |init|); }
          hs[..|w'|];
        }
        forall i | 0 <= i < |w'| ensures hs[i].score <= maxDistance {
          assert hs[i] == init[i];
        }
        forall i | |w'| <= i < |hs| ensures hs[i].score > maxDistance {
          if i < |init| {
            assert hs[i] == init[i];
          }
        }
      }
    }
  }

  /** The threshold applied to a prefix `hs[..p]` of ascending hits keeps as
      much as the threshold applied to all of them does, up to `p`. */
  lemma WithinDistancePrefix(hs: seq<Hit>, maxDistance: real, p: nat)
    requires Ascending(hs) && p <= |hs|
    ensures var w := WithinDistance(hs, maxDistance);
      WithinDistance(hs[..p], maxDistance) == w[..if p <= |w| then p else |w|]
  {
    var w := WithinDistance(hs, maxDistance);
    var q := hs[..p];
    var w1 := WithinDistance(q, maxDistance);
    var m := if p <= |w| then p else |w|;
    WithinDistanceAscending(hs, maxDistance);
    AscendingPrefix(hs, p);
    WithinDistanceAscending(q, maxDistance);
    assert forall i :: 0 <= i < |w1| ==> hs[i].score <= maxDistance by {
      forall i | 0 <= i < |w1| ensures hs[i].score <= maxDistance {
        assert hs[i] == q[i];
      }
    }
    assert forall i :: |w1| <= i < p ==> hs[i].score > maxDistance by {
      forall i | |w1| <= i < p ensures hs[i].score > maxDistance {
        assert hs[i] == q[i];
      }
    }
    SplitPoint(hs, maxDistance, |w|, |w1|, p);
    PrefixOfPrefix(hs, m, p);
    PrefixOfPrefix(hs, m, |w|);
  }

  /** Steps 3 of `retrieve`: sort the pool by score, keep the first
      `total_chunks` (a Python slice), then drop those beyond `max_distance`. */
  function RankHits(pool: seq<Hit>, totalChunks: int, maxDistance: real): (r: seq<Hit>)
    ensures totalChunks >= 0 ==> |r| <= totalChunks
    ensures forall i :: 0 <= i < |r| ==> r[i].score <= maxDistance
  {
    WithinDistance(Prefix(SortByScore(pool), totalChunks), maxDistance)
  }

  /** The ranked hits number at most `total_chunks` (when that is not
      negative) and at most the pool, lie within `max_distance`, and are
      candidates from the pool. */
  lemma RankHitsBounds(pool: seq<Hit>, totalChunks: int, maxDistance: real)
    ensures var r := RankHits(pool, totalChunks, maxDistance);
      (totalChunks >= 0 ==> |r| <= totalChunks) && |r| <= |pool| &&
      forall i :: 0 <= i < |r| ==> r[i].score <= maxDistance && r[i] in pool
  {
    var s := SortByScore(pool);
    assert |s| == |pool| by {
      assert |multiset(s)| == |multiset(pool)|;
    }
    var t := Prefix(s, totalChunks);
    var r := RankHits(pool, totalChunks, maxDistance);
    WithinDistanceMembers(t, maxDistance);
    forall i | 0 <= i < |r| ensures r[i] in pool {
      assert r[i] in t;
      assert r[i] in multiset(s);
    }
  }

  /** The ranked hits come in non-decreasing score order. */
  lemma RankHitsAscending(pool: seq<Hit>, totalChunks: int, maxDistance: real)
    ensures Ascending(RankHits(pool, totalChunks, maxDistance))
  {
    var s := SortByScore(pool);
    SortByScoreAscending(pool);
    var t := Prefix(s, totalChunks);
    AscendingPrefix(s, |t|);
    WithinDistanceAscending(t, maxDistance);
    AscendingPrefix(t, |WithinDistance(t, maxDistance)|);
  }

  /** Because the sorted pool is ascending, thresholding after truncating to
      `total_chunks` keeps the same hits as truncating after thresholding. */
  lemma RankHitsTruncateLast(pool: seq<Hit>, totalChunks: int, maxDistance: real)
    requires totalChunks >= 0
    ensures RankHits(pool, totalChunks, maxDistance) ==
            Prefix(WithinDistance(SortByScore(pool), maxDistance), totalChunks)
  {
    var s := SortByScore(pool);
    SortByScoreAscending(pool);
    var t := Prefix(s, totalChunks);
    WithinDistancePrefix(s, maxDistance, |t|);
  }

  // ---------------------------------------------------------------------
  // retrieve
  // ---------------------------------------------------------------------

  /** `[result.page_content for result, _ in title_results]` */
  function PageContents(hs: seq<Hit>): (r: seq<string>)
    ensures |r| == |hs|
    ensures forall i :: 0 <= i < |hs| ==> r[i] == hs[i].doc.pageContent
  {
    seq(|hs|, i requires 0 <= i < |hs| => hs[i].doc.pageContent)
  }

  /** The candidate pool: the filtered chunk search for each title in turn,
      concatenated without deduplication. */
  function Pool(chunkStore: Store, query: string, titles: seq<string>, k: nat, search: SearchFn): (r: seq<Hit>)
    ensures forall h :: h in r ==> exists t :: t in titles && h in search(chunkStore, query, k, Some(t))
  {
    if titles == [] then []
    else
      var init := titles[..|titles| - 1];
      var t := titles[|titles| - 1];
      var hs := search(chunkStore, query, k, Some(t));
      var r := Pool(chunkStore, query, init, k, search) + hs;
      assert forall h :: h in r ==> exists t :: t in titles && h in search(chunkStore, query, k, Some(t)) by {
        forall h | h in r ensures exists t :: t in titles && h in search(chunkStore, query, k, Some(t)) {
          if h !in hs {
            var t' :| t' in init && h in search(chunkStore, query, k, Some(t'));
            assert t' in titles;
          }
        }
      }
      r
  }

  /** Given the search contract the pool holds at most `k` hits per title, each
      a document of the chunk store tagged with one of the titles. */
  lemma {:induction false} PoolProperties(chunkStore: Store, query: string, titles: seq<string>, k: nat, search: SearchFn)
    requires SearchContract(search)
    ensures var pool := Pool(chunkStore, query, titles, k, search);
      |pool| <= |titles| * k &&
      forall i :: 0 <= i < |pool| ==>
        pool[i].doc in chunkStore.docs && pool[i].doc.title.Some? && pool[i].doc.title.value in titles
  {
    if titles != [] {
      var init := titles[..|titles| - 1];
      var t := titles[|titles| - 1];
      PoolProperties(chunkStore, query, init, k, search);
      var hs := search(chunkStore, query, k, Some(t));
      assert ValidHits(chunkStore, k, Some(t), hs);
      var pool := Pool(chunkStore, query, titles, k, search);
      var pool' := Pool(chunkStore, query, init, k, search);
      assert pool == pool' + hs;
      assert |init| * k + k == |titles| * k;
      forall i | 0 <= i < |pool|
        ensures pool[i].doc in chunkStore.docs && pool[i].doc.title.Some? && pool[i].doc.title.value in titles
      {
        if i < |pool'| {
          assert pool[i] == pool'[i];
          assert pool[i].doc.title.value in init;
        } else {
          assert pool[i] == hs[i - |pool'|];
        }
      }
    }
  }

  /** What `retrieve(query)` returns, stated without its loop. */
  function RetrieveResult(titleStore: Store, chunkStore: Store, query: string, titleTopN: nat, chunksPerTitle: nat,
                          totalChunks: int, maxDistance: real, search: SearchFn): (r: seq<string>)
    ensures totalChunks >= 0 ==> |r| <= totalChunks
  {
    var titles := PageContents(search(titleStore, query, titleTopN, None));
    PageContents(RankHits(Pool(chunkStore, query, titles, chunksPerTitle, search), totalChunks, maxDistance))
  }

  /** Given the search contract, the titles found in a title store built from
      a corpus are keys of that corpus. */
  lemma TitlesAreKeys(data: Dict<string, seq<string>>, query: string, titleTopN: nat, search: SearchFn)
    requires SearchContract(search)
    ensures var titles := PageContents(search(TitleStore(data), query, titleTopN, None));
      |titles| <= titleTopN && forall t :: t in titles ==> t in Keys(data)
  {
    var titleHits := search(TitleStore(data), query, titleTopN, None);
    assert ValidHits(TitleStore(data), titleTopN, None, titleHits);
    var titles := PageContents(titleHits);
    forall t | t in titles ensures t in Keys(data) {
      var i :| 0 <= i < |titles| && titles[i] == t;
      var j :| 0 <= j < |data| && TitleStore(data).docs[j] == titleHits[i].doc;
    }
  }

  /** A document of a chunk store built from a corpus is a chunk that the
      corpus files under the document's title. */
  lemma ChunkDocOwned(data: Dict<string, seq<string>>, doc: Doc)
    requires doc in ChunkStore(data).docs
    ensures doc.title.Some?
    ensures exists j :: 0 <= j < |data| && data[j].0 == doc.title.value && doc.pageContent in data[j].1
  {
    var cs := ChunkStore(data);
    var c :| 0 <= c < |cs.docs| && cs.docs[c] == doc;
    ChunkOwner(data, c);
  }

  lemma MulMonotone(a: nat, b: nat, k: nat)
    requires a <= b
    ensures a * k <= b * k
  {
  }

  /** On stores built from a corpus, and given the search contract, `retrieve`
      returns at most `total_chunks` (when that is not negative) and at most
      `title_top_n * chunks_per_title` texts. */
  lemma RetrieveBounds(data: Dict<string, seq<string>>, query: string, titleTopN: nat, chunksPerTitle: nat,
                       totalChunks: int, maxDistance: real, search: SearchFn)
    requires SearchContract(search)
    ensures var r := RetrieveResult(TitleStore(data), ChunkStore(data), query, titleTopN, chunksPerTitle,
                                    totalChunks, maxDistance, search);
      (totalChunks >= 0 ==> |r| <= totalChunks) && |r| <= titleTopN * chunksPerTitle
  {
    var titles := PageContents(search(TitleStore(data), query, titleTopN, None));
    TitlesAreKeys(data, query, titleTopN, search);
    var pool := Pool(ChunkStore(data), query, titles, chunksPerTitle, search);
    PoolProperties(ChunkStore(data), query, titles, chunksPerTitle, search);
    RankHitsBounds(pool, totalChunks, maxDistance);
    MulMonotone(|titles|, titleTopN, chunksPerTitle);
  }

  /** On stores built from a corpus, and given the search contract, every
      text `retrieve` returns is a chunk that the corpus files under one of
      the titles the title search returned. */
  lemma RetrieveFromTitles(data: Dict<string, seq<string>>, query: string, titleTopN: nat, chunksPerTitle: nat,
                           totalChunks: int, maxDistance: real, search: SearchFn)
    requires SearchContract(search)
    ensures var r := RetrieveResult(TitleStore(data), ChunkStore(data), query, titleTopN, chunksPerTitle,
                                    totalChunks, maxDistance, search);
      var titles := PageContents(search(TitleStore(data), query, titleTopN, None));
      forall i :: 0 <= i < |r| ==> exists j :: 0 <= j < |data| && data[j].0 in titles && r[i] in data[j].1
  {
    var titles := PageContents(search(TitleStore(data), query, titleTopN, None));
    var pool := Pool(ChunkStore(data), query, titles, chunksPerTitle, search);
    var ranked := RankHits(pool, totalChunks, maxDistance);
    var r := PageContents(ranked);
    forall i | 0 <= i < |r| ensures exists j :: 0 <= j < |data| && data[j].0 in titles && r[i] in data[j].1 {
      RankHitsBounds(pool, totalChunks, maxDistance);
      PoolProperties(ChunkStore(data), query, titles, chunksPerTitle, search);
      var p :| 0 <= p < |pool| && pool[p] == ranked[i];
      ChunkDocOwned(data, ranked[i].doc);
    }
  }

  // ---------------------------------------------------------------------
  // HierarchicalRetrieval
  // ---------------------------------------------------------------------

  /** The retriever: the corpus (title -> chunks), its settings, and the two
      vector stores built from the corpus. The embedding model is kept by
      name and device only. */
  class HierarchicalRetrieval {
    var data: Dict<string, seq<string>>
    var titleTopN: nat
    var chunksPerTitle: nat
    var totalChunks: int
    var maxDistance: real
    var embeddingModel: string
    var device: string
    var titleVectorstore: Store
    var chunkVectorstore: Store

    /** Both stores reflect the current corpus. */
    ghost predicate Valid()
      reads this
    {
      titleVectorstore == TitleStore(data) && chunkVectorstore == ChunkStore(data)
    }

    constructor (data: Dict<string, seq<string>>,
                 embeddingModel: string := "sentence-transformers/paraphrase-multilingual-MiniLM-L12-v2",
                 device: string := "cpu", titleTopN: nat := 10, chunksPerTitle: nat := 2,
                 totalChunks: int := 5, maxDistance: real := 1.0)
      ensures this.data == data && this.titleTopN == titleTopN && this.chunksPerTitle == chunksPerTitle
      ensures this.totalChunks == totalChunks && this.maxDistance == maxDistance
      ensures this.embeddingModel == embeddingModel && this.device == device
      ensures Valid()
    {
      this.data := data;
      this.titleTopN := titleTopN;
      this.chunksPerTitle := chunksPerTitle;
      this.totalChunks := totalChunks;
      this.maxDistance := maxDistance;
      this.embeddingModel := embeddingModel;
      this.device := device;
      this.titleVectorstore := Store([]);
      this.chunkVectorstore := Store([]);
      new;
      PrepareVectorStores();
    }

    /** `prepare_vector_stores()`: builds the title store from the keys and the
        chunk store from the chunk lists with their titles, and changes no
        other field. */
    method PrepareVectorStores()
      modifies this
      ensures data == old(data) && titleTopN == old(titleTopN) && chunksPerTitle == old(chunksPerTitle)
      ensures totalChunks == old(totalChunks) && maxDistance == old(maxDistance)
      ensures embeddingModel == old(embeddingModel) && device == old(device)
      ensures titleVectorstore == TitleStore(data) && chunkVectorstore == ChunkStore(data)
    {
      var titleTexts := Keys(data);
      titleVectorstore := FromTexts(titleTexts, seq(|titleTexts|, i => None));
      var allChunks: seq<string> := [];
      var chunkMetadata: seq<Option<string>> := [];
      assert data[..0] == [];
      for i := 0 to |data|
        invariant allChunks == ChunkTexts(data[..i])
        invariant chunkMetadata == ChunkMetadata(data[..i])
        invariant |allChunks| == |chunkMetadata|
      {
        var (title, chunks) := data[i];
        assert data[..i + 1][..i] == data[..i] && data[..i + 1][i] == data[i];
        for j := 0 to |chunks|
          invariant allChunks == ChunkTexts(data[..i]) + chunks[..j]
          invariant chunkMetadata == ChunkMetadata(data[..i]) + seq(j, n => Some(title))
        {
          allChunks := allChunks + [chunks[j]];
          chunkMetadata := chunkMetadata + [Some(title)];
          assert chunks[..j + 1] == chunks[..j] + [chunks[j]];
          assert seq(j + 1, n => Some(title)) == seq(j, n => Some(title)) + [Some(title)];
        }
        assert chunks[..|chunks|] == chunks;
      }
      assert data[..|data|] == data;
      chunkVectorstore := FromTexts(allChunks, chunkMetadata);
    }

    /** `retrieve(query)`: the texts of the ranked candidates. It assigns no
        field, so calls with the same query and search give the same texts.
        When the search meets its contract, there are at most `total_chunks`
        (when that is not negative) and at most `title_top_n * chunks_per_title`
        of them, and each is a chunk of the corpus. */
    method Retrieve(query: string, search: SearchFn) returns (chunks: seq<string>)
      requires Valid()
      ensures chunks == RetrieveResult(titleVectorstore, chunkVectorstore, query, titleTopN, chunksPerTitle,
                                       totalChunks, maxDistance, search)
      ensures SearchContract(search) ==>
        (totalChunks >= 0 ==> |chunks| <= totalChunks) && |chunks| <= titleTopN * chunksPerTitle &&
        forall i :: 0 <= i < |chunks| ==> exists j :: 0 <= j < |data| && chunks[i] in data[j].1
    {
      var titleResults := search(titleVectorstore, query, titleTopN, None);
      var relevantTitles := PageContents(titleResults);
      var allRelevantChunks: seq<Hit> := [];
      for i := 0 to |relevantTitles|
        invariant allRelevantChunks == Pool(chunkVectorstore, query, relevantTitles[..i], chunksPerTitle, search)
      {
        var titleChunks := search(chunkVectorstore, query, chunksPerTitle, Some(relevantTitles[i]));
        assert relevantTitles[..i + 1][..i] == relevantTitles[..i];
        allRelevantChunks := allRelevantChunks + titleChunks;
      }
      assert relevantTitles[..|relevantTitles|] == relevantTitles;
      var finalChunks := Prefix(SortByScore(allRelevantChunks), totalChunks);
      finalChunks := WithinDistance(finalChunks, maxDistance);
      chunks := PageContents(finalChunks);
      if SearchContract(search) {
        RetrieveBounds(data, query, titleTopN, chunksPerTitle, totalChunks, maxDistance, search);
        RetrieveFromTitles(data, query, titleTopN, chunksPerTitle, totalChunks, maxDistance, search);
      }
    }
  }
}
