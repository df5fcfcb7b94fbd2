/** Category boosting and deterministic ranking (`score_and_rank`). The
    similarity of the query to each catalog row is an input, one value per
    row in catalog order; the rest of the pipeline is modelled here. */
module Ranking {
  import opened StrOrder
  import opened Catalog
  import opened Synonyms

  /** A catalog row with its score attached; `index` is the row's position in
      the catalog (the frame's index label, which the sort carries along). */
  datatype ScoredEntry = ScoredEntry(index: nat, entry: Entry, score: real)

  // ---------------------------------------------------------------------
  // The boost set
  // ---------------------------------------------------------------------

  /** `set(manual_boost_cats) | set(auto_boost_cats)` (app.py:106). */
  function BoostSet(manual: seq<string>, detected: seq<string>): (r: set<string>)
    ensures forall c :: c in r <==> c in manual || c in detected
  {
    (set c | c in manual) + (set c | c in detected)
  }

  /** The boost set of one request: the automatic categories are detected
      only when `autoBoost` is on (app.py:100-101, 106). */
  ghost function RequestBoostSet(manual: seq<string>, autoBoost: bool, query: string): (r: set<string>)
    ensures forall c :: c in manual ==> c in r
    ensures !autoBoost ==> forall c :: c in r ==> c in manual
    ensures autoBoost ==> forall c :: c in r <==> c in manual || c in Detect(CategorySynonyms, Lower(query))
  {
    BoostSet(manual, if autoBoost then Detect(CategorySynonyms, Lower(query)) else [])
  }

  /** Without auto-boost the boost set is exactly the manual categories; with
      it, a category is boosted when it is chosen manually or its row of the
      synonym table matches the query. */
  lemma RequestBoostSetCases(manual: seq<string>, autoBoost: bool, query: string)
    ensures !autoBoost ==> RequestBoostSet(manual, autoBoost, query) == set c | c in manual
    ensures autoBoost ==> forall c :: c in RequestBoostSet(manual, autoBoost, query) <==>
      c in manual || exists k :: 0 <= k < |CategorySynonyms| && CategorySynonyms[k].0 == c && Selected(CategorySynonyms[k], Lower(query))
  {
    if autoBoost {
      forall c ensures c in Detect(CategorySynonyms, Lower(query)) <==>
        exists k :: 0 <= k < |CategorySynonyms| && CategorySynonyms[k].0 == c && Selected(CategorySynonyms[k], Lower(query))
      {
        DetectMember(CategorySynonyms, Lower(query), c);
      }
    }
  }

  // ---------------------------------------------------------------------
  // Boosting
  // ---------------------------------------------------------------------

  function Pow(b: real, k: nat): real {
    if k == 0 then 1.0 else b * Pow(b, k - 1)
  }

  /** A row's category equals some member of the boost set (the test
      `cat_arr == cat` of app.py:111). A missing category (NaN) equals no
      string, so it is never boosted. */
  predicate Boosted(cat: Cell, boost: set<string>): (r: bool)
    ensures r <==> exists b :: b in boost && Text(b) == cat
  {
    cat.Text? && cat.text in boost
  }

  /** How many members of the boost set equal the category `c`. */
  ghost function HitCount(boost: set<string>, c: Cell): nat {
    |set b | b in boost && Text(b) == c|
  }

  /** A set holds a category at most once, and a missing category never. */
  lemma HitCountAtMostOne(boost: set<string>, c: Cell)
    ensures HitCount(boost, c) == if Boosted(c, boost) then 1 else 0
  {
    if Boosted(c, boost) {
      assert (set b | b in boost && Text(b) == c) == {c.text};
    } else {
      assert (set b | b in boost && Text(b) == c) == {};
    }
  }

  /** The boosted scores in their general form: each boost-set member equal to
      the row's category multiplies its similarity by `1 + w` once. */
  ghost function BoostedScores(sim: seq<real>, cats: seq<Cell>, boost: set<string>, w: real): (r: seq<real>)
    requires |sim| == |cats|
    ensures |r| == |sim|
  {
    seq(|sim|, i requires 0 <= i < |sim| => sim[i] * Pow(1.0 + w, HitCount(boost, cats[i])))
  }

  /** A row of a boosted category is scaled by exactly `1 + w`; any other row
      keeps its similarity. */
  lemma BoostedAt(sim: seq<real>, cats: seq<Cell>, boost: set<string>, w: real, i: int)
    requires |sim| == |cats| && 0 <= i < |sim|
    ensures BoostedScores(sim, cats, boost, w)[i] == if Boosted(cats[i], boost) then sim[i] * (1.0 + w) else sim[i]
  {
    HitCountAtMostOne(boost, cats[i]);
    assert Pow(1.0 + w, 1) == 1.0 + w;
  }

  /** With weight zero, an empty boost set, or only categories no row carries,
      every score is the raw similarity. */
  lemma BoostWithoutEffect(sim: seq<real>, cats: seq<Cell>, boost: set<string>, w: real)
    requires |sim| == |cats|
    requires w == 0.0 || forall i :: 0 <= i < |cats| ==> !Boosted(cats[i], boost)
    ensures BoostedScores(sim, cats, boost, w) == sim
  {
    forall i | 0 <= i < |sim| ensures BoostedScores(sim, cats, boost, w)[i] == sim[i] {
      BoostedAt(sim, cats, boost, w, i);
    }
  }

  /** The multiplier loop of app.py:107-112: a multiplier per row, starting at
      one, is scaled by `1 + w` for each boost category the row carries; then
      the similarities are multiplied by it. */
  method Boost(sim: seq<real>, cats: seq<Cell>, boost: set<string>, w: real) returns (scores: seq<real>)
    requires |sim| == |cats|
    ensures |scores| == |sim|
    ensures forall i :: 0 <= i < |sim| ==> scores[i] == if Boosted(cats[i], boost) then sim[i] * (1.0 + w) else sim[i]
    ensures scores == BoostedScores(sim, cats, boost, w)
  {
    scores := sim;
    if boost != {} {
      var mul := new real[|sim|](_ => 1.0);
      var rest := boost;
      while rest != {}
        invariant rest <= boost
        invariant mul.Length == |sim|
        invariant forall i :: 0 <= i < mul.Length ==> mul[i] == if Boosted(cats[i], boost - rest) then 1.0 + w else 1.0
        decreases rest
      {
        var c :| c in rest;
        ScaleCategory(mul, cats, c, w);
        rest := rest - {c};
        assert forall i :: 0 <= i < |cats| ==> (Boosted(cats[i], boost - rest) <==> Boosted(cats[i], boost - (rest + {c})) || cats[i] == Text(c));
      }
      scores := seq(|sim|, i requires 0 <= i < |sim| reads mul => sim[i] * mul[i]);
    }
    forall i | 0 <= i < |sim| ensures scores[i] == BoostedScores(sim, cats, boost, w)[i] {
      BoostedAt(sim, cats, boost, w, i);
    }
  }

  /** `mul = mul * np.where(cat_arr == cat, 1.0 + boost_weight, 1.0)`
      (app.py:111): the multiplier of each row of category `c` is scaled by
      `1 + w`, every other multiplier is kept. */
  method ScaleCategory(mul: array<real>, cats: seq<Cell>, c: string, w: real)
    requires mul.Length == |cats|
    modifies mul
    ensures forall k :: 0 <= k < mul.Length ==> mul[k] == old(mul[k]) * (if cats[k] == Text(c) then 1.0 + w else 1.0)
  {
    for i := 0 to mul.Length
      invariant forall k :: 0 <= k < i ==> mul[k] == old(mul[k]) * (if cats[k] == Text(c) then 1.0 + w else 1.0)
      invariant forall k :: i <= k < mul.Length ==> mul[k] == old(mul[k])
    {
      mul[i] := mul[i] * (if cats[i] == Text(c) then 1.0 + w else 1.0);
    }
  }

  // ---------------------------------------------------------------------
  // The ranking order
  // ---------------------------------------------------------------------

  /** The ascending site-name key as pandas sorts it (`na_position="last"`):
      present names compare as strings, and a missing name comes after every
      present one. Two missing names are equal on this key. */
  predicate NameLess(a: Cell, b: Cell): (r: bool)
    ensures r ==> a.Text?
    ensures a.Text? && b.Missing? ==> r
    ensures a.Text? && b.Text? ==> (r <==> Less(a.text, b.text))
  {
    if a.Missing? then false else if b.Missing? then true else Less(a.text, b.text)
  }

  predicate NameLessEq(a: Cell, b: Cell) {
    a == b || NameLess(a, b)
  }

  lemma NameLessIrreflexive(a: Cell)
    ensures !NameLess(a, a)
  {
    if a.Text? {
      LessIrreflexive(a.text);
    }
  }

  lemma NameLessAsymmetric(a: Cell, b: Cell)
    ensures NameLess(a, b) ==> !NameLess(b, a)
  {
    if a.Text? && b.Text? {
      LessAsymmetric(a.text, b.text);
    }
  }

  lemma NameLessTransitive(a: Cell, b: Cell, c: Cell)
    requires NameLess(a, b) && NameLess(b, c)
    ensures NameLess(a, c)
  {
    if c.Text? {
      LessTransitive(a.text, b.text, c.text);
    }
  }

  /** Any two different name cells are ordered one way or the other. */
  lemma NameLessTotal(a: Cell, b: Cell)
    requires a != b
    ensures NameLess(a, b) || NameLess(b, a)
  {
    if a.Text? && b.Text? {
      LessTotal(a.text, b.text);
    }
  }

  /** The sort key of app.py:117: `x` goes before `y` when its score is higher,
      or the scores are equal and its site name is smaller. */
  predicate Precedes(x: ScoredEntry, y: ScoredEntry): (r: bool)
    ensures r ==> x.score >= y.score
    ensures x.score > y.score ==> r
    ensures x.score == y.score ==> (r <==> NameLess(x.entry.siteName, y.entry.siteName))
  {
    x.score > y.score || (x.score == y.score && NameLess(x.entry.siteName, y.entry.siteName))
  }

  /** The order of a stable sort on that key: rows equal on both keys keep
      their catalog order. */
  predicate Ordered(x: ScoredEntry, y: ScoredEntry) {
    Precedes(x, y) || (x.score == y.score && x.entry.siteName == y.entry.siteName && x.index < y.index)
  }

  ghost predicate Ranked(s: seq<ScoredEntry>) {
    forall p, q :: 0 <= p < q < |s| ==> Ordered(s[p], s[q])
  }

  lemma OrderedTransitive(x: ScoredEntry, y: ScoredEntry, z: ScoredEntry)
    requires Ordered(x, y) && Ordered(y, z)
    ensures Ordered(x, z)
  {
    if x.score == y.score == z.score {
      var a, b, c := x.entry.siteName, y.entry.siteName, z.entry.siteName;
      if NameLess(a, b) && NameLess(b, c) {
        NameLessTransitive(a, b, c);
      }
    }
  }

  lemma OrderedAsymmetric(x: ScoredEntry, y: ScoredEntry)
    ensures Ordered(x, y) ==> !Ordered(y, x)
  {
    NameLessAsymmetric(x.entry.siteName, y.entry.siteName);
    NameLessIrreflexive(x.entry.siteName);
  }

  /** A row that may not move ahead of a row from earlier in the catalog is
      ordered after it. */
  lemma NotPrecedesOrdered(x: ScoredEntry, y: ScoredEntry)
    requires !Precedes(x, y) && y.index < x.index
    ensures Ordered(y, x)
  {
    if x.entry.siteName != y.entry.siteName {
      NameLessTotal(x.entry.siteName, y.entry.siteName);
    }
  }

  /** The step of insertion: a sequence ranked except at position `j`, whose
      element goes before everything after it and may not move ahead of what
      is just before it, is ranked. */
  lemma InsertedRanked(s: seq<ScoredEntry>, j: int)
    requires 0 <= j < |s|
    requires forall p, q :: 0 <= p < q < |s| && p != j && q != j ==> Ordered(s[p], s[q])
    requires forall q :: j < q < |s| ==> Precedes(s[j], s[q])
    requires j > 0 ==> !Precedes(s[j], s[j - 1]) && s[j - 1].index < s[j].index
    ensures Ranked(s)
  {
    if j > 0 {
      NotPrecedesOrdered(s[j], s[j - 1]);
      forall p | 0 <= p < j - 1 ensures Ordered(s[p], s[j]) {
        OrderedTransitive(s[p], s[j - 1], s[j]);
      }
    }
  }

  /** One pass of insertion: the row at position `i`, the next in catalog
      order, moves left by adjacent swaps past every row it goes before. */
  method Insert(a: array<ScoredEntry>, i: int)
    requires 0 <= i < a.Length
    requires Ranked(a[..i]) && a[i].index == i
    requires forall k :: 0 <= k < i ==> a[k].index < i
    modifies a
    ensures Ranked(a[..i + 1])
    ensures forall k :: 0 <= k <= i ==> a[k].index <= i
    ensures forall k :: i < k < a.Length ==> a[k] == old(a[k])
    ensures multiset(a[..]) == multiset(old(a[..]))
  {
    var j := i;
    while j > 0 && Precedes(a[j], a[j - 1])
      invariant 0 <= j <= i
      invariant a[j] == old(a[i])
      invariant forall p, q :: 0 <= p < q <= i && p != j && q != j ==> Ordered(a[p], a[q])
      invariant forall q :: j < q <= i ==> Precedes(a[j], a[q])
      invariant forall k :: 0 <= k <= i && k != j ==> a[k].index < i
      invariant forall k :: i < k < a.Length ==> a[k] == old(a[k])
      invariant multiset(a[..]) == multiset(old(a[..]))
    {
      a[j - 1], a[j] := a[j], a[j - 1];
      j := j - 1;
    }
    InsertedRanked(a[..i + 1], j);
  }

  /** A stable sort on (score descending, site name ascending) of rows given
      in catalog order (app.py:117), as an insertion sort. */
  method SortRanked(a: array<ScoredEntry>)
    requires forall k :: 0 <= k < a.Length ==> a[k].index == k
    modifies a
    ensures Ranked(a[..])
    ensures multiset(a[..]) == multiset(old(a[..]))
  {
    var i := 0;
    while i < a.Length
      invariant 0 <= i <= a.Length
      invariant Ranked(a[..i])
      invariant forall k :: 0 <= k < i ==> a[k].index < i
      invariant forall k :: i <= k < a.Length ==> a[k] == old(a[k])
      invariant multiset(a[..]) == multiset(old(a[..]))
    {
      Insert(a, i);
      i := i + 1;
    }
    assert a[..a.Length] == a[..];
  }

  // ---------------------------------------------------------------------
  // The pipeline
  // ---------------------------------------------------------------------

  function Categories(rows: seq<Entry>): (r: seq<Cell>)
    ensures |r| == |rows| && forall k :: 0 <= k < |rows| ==> r[k] == rows[k].category
  {
    seq(|rows|, k requires 0 <= k < |rows| => rows[k].category)
  }

  /** `out = df.copy(); out["score"] = sim` (app.py:114-115). */
  function Scored(rows: seq<Entry>, scores: seq<real>): (r: seq<ScoredEntry>)
    requires |scores| == |rows|
    ensures |r| == |rows|
    ensures forall k :: 0 <= k < |rows| ==> r[k] == ScoredEntry(k, rows[k], scores[k])
  {
    seq(|rows|, k requires 0 <= k < |rows| => ScoredEntry(k, rows[k], scores[k]))
  }

  /** A ranking that is a permutation of the scored rows holds every catalog
      row exactly once, with its own entry and score. */
  lemma {:induction false} RankingCoversEachRowOnce(out: seq<ScoredEntry>, rows: seq<Entry>, scores: seq<real>)
    requires |scores| == |rows|
    requires Ranked(out)
    requires multiset(out) == multiset(Scored(rows, scores))
    ensures |out| == |rows|
    ensures forall p :: 0 <= p < |out| ==>
      out[p].index < |rows| && out[p] == ScoredEntry(out[p].index, rows[out[p].index], scores[out[p].index])
    ensures forall k :: 0 <= k < |rows| ==> ScoredEntry(k, rows[k], scores[k]) in out
    ensures forall p, q :: 0 <= p < q < |out| ==> out[p].index != out[q].index
  {
    var base := Scored(rows, scores);
    assert |out| == |multiset(out)| == |multiset(base)| == |base|;
    forall p | 0 <= p < |out|
      ensures out[p].index < |rows| && out[p] == ScoredEntry(out[p].index, rows[out[p].index], scores[out[p].index])
    {
      assert out[p] in multiset(base);
      var k :| 0 <= k < |base| && base[k] == out[p];
    }
    forall k | 0 <= k < |rows| ensures ScoredEntry(k, rows[k], scores[k]) in out {
      assert base[k] in multiset(out);
    }
    forall p, q | 0 <= p < q < |out| ensures out[p].index != out[q].index {
      OrderedAsymmetric(out[p], out[q]);
    }
  }

  /** Scores never increase along the ranking, equal scores come by site name,
      and rows equal on both keys keep their catalog order. */
  ghost predicate RankedByKeys(s: seq<ScoredEntry>) {
    && (forall p, q :: 0 <= p < q < |s| ==> s[p].score >= s[q].score)
    && (forall p, q :: 0 <= p < q < |s| && s[p].score == s[q].score ==>
          NameLessEq(s[p].entry.siteName, s[q].entry.siteName))
    && (forall p, q :: 0 <= p < q < |s| && s[p].score == s[q].score && s[p].entry.siteName == s[q].entry.siteName ==>
          s[p].index < s[q].index)
  }

  lemma RankedHasKeyOrder(s: seq<ScoredEntry>)
    requires Ranked(s)
    ensures RankedByKeys(s)
  {
    forall p, q | 0 <= p < q < |s| && s[p].score == s[q].score && s[p].entry.siteName == s[q].entry.siteName
      ensures s[p].index < s[q].index
    {
      NameLessIrreflexive(s[p].entry.siteName);
    }
  }

  /** Among rows of equal score, a row whose site name is missing is followed
      only by rows whose site name is missing too. */
  lemma MissingNameRankedLast(s: seq<ScoredEntry>)
    requires Ranked(s)
    ensures forall p, q :: 0 <= p < q < |s| && s[p].score == s[q].score && s[p].entry.siteName.Missing? ==>
      s[q].entry.siteName.Missing?
  {
    RankedHasKeyOrder(s);
  }

  /** When every row has a site name, equal scores come by ascending name as
      a string. */
  lemma NamedRowsRankByString(s: seq<ScoredEntry>)
    requires RankedByKeys(s)
    requires forall p :: 0 <= p < |s| ==> s[p].entry.siteName.Text?
    ensures forall p, q :: 0 <= p < q < |s| && s[p].score == s[q].score ==>
      LessEq(s[p].entry.siteName.text, s[q].entry.siteName.text)
  {
  }

  /** An uploaded table goes to the ranking without `load_sources`. Of two rows
      with equal scores, the one without a site name is then ranked second;
      had the table been loaded, `fillna("")` would have named it "" and it
      would have been ranked first. */
  lemma MissingNameOrderDependsOnLoading(a: Entry, b: Entry, s: real, uploaded: seq<ScoredEntry>, loaded: seq<ScoredEntry>)
    requires a.siteName.Missing? && b.siteName.Text?
    requires Ranked(uploaded) && multiset(uploaded) == multiset(Scored([a, b], [s, s]))
    requires Ranked(loaded) && multiset(loaded) == multiset(Scored([a.(siteName := FillNa([a.siteName])[0]), b], [s, s]))
    ensures uploaded == [ScoredEntry(1, b, s), ScoredEntry(0, a, s)]
    ensures loaded == [ScoredEntry(0, a.(siteName := Text("")), s), ScoredEntry(1, b, s)]
  {
    var filled := a.(siteName := FillNa([a.siteName])[0]);
    assert filled == a.(siteName := Text(""));
    var u, l := [ScoredEntry(1, b, s), ScoredEntry(0, a, s)], [ScoredEntry(0, filled, s), ScoredEntry(1, b, s)];
    assert Scored([a, b], [s, s]) == [u[1], u[0]];
    assert Scored([filled, b], [s, s]) == l;
    assert Ordered(u[0], u[1]);
    assert Ordered(l[0], l[1]);
    RankingIsUnique(uploaded, u);
    RankingIsUnique(loaded, l);
  }

  lemma RankedTail(s: seq<ScoredEntry>)
    requires Ranked(s) && |s| > 0
    ensures Ranked(s[1..])
  {
    forall p, q | 0 <= p < q < |s| - 1 ensures Ordered(s[1..][p], s[1..][q]) {
      assert s[1..][p] == s[p + 1] && s[1..][q] == s[q + 1];
    }
  }

  /** Two rankings of the same rows start with the same row. */
  lemma RankedSameHead(s: seq<ScoredEntry>, t: seq<ScoredEntry>)
    requires Ranked(s) && Ranked(t) && |s| > 0
    requires multiset(s) == multiset(t)
    ensures |t| > 0 && s[0] == t[0]
  {
    assert s[0] in multiset(t);
    var k :| 0 <= k < |t| && t[k] == s[0];
    assert t[0] in multiset(s);
    var m :| 0 <= m < |s| && s[m] == t[0];
    OrderedAsymmetric(t[0], s[0]);
    OrderedAsymmetric(s[0], s[0]);
    assert k == 0;
  }

  /** The ranking is determined by its rows: two rankings of the same rows
      are the same sequence. */
  lemma {:induction false} RankingIsUnique(s: seq<ScoredEntry>, t: seq<ScoredEntry>)
    requires Ranked(s) && Ranked(t)
    requires multiset(s) == multiset(t)
    ensures s == t
    decreases |s|
  {
    assert |s| == |multiset(s)| == |multiset(t)| == |t|;
    if |s| > 0 {
      RankedSameHead(s, t);
      assert s == [s[0]] + s[1..] && t == [t[0]] + t[1..];
      assert multiset(s[1..]) == multiset(t[1..]) by {
        assert multiset(s) == multiset{s[0]} + multiset(s[1..]);
        assert multiset(t) == multiset{s[0]} + multiset(t[1..]);
        forall e ensures multiset(s[1..])[e] == multiset(t[1..])[e] {
          assert multiset(s)[e] == multiset{s[0]}[e] + multiset(s[1..])[e];
          assert multiset(t)[e] == multiset{s[0]}[e] + multiset(t[1..])[e];
        }
      }
      RankedTail(s);
      RankedTail(t);
      RankingIsUnique(s[1..], t[1..]);
    }
  }

  /** A zero boost weight leaves the ranking exactly as it is without boosting. */
  lemma ZeroWeightSameRanking(rows: seq<Entry>, sim: seq<real>, boost: set<string>, boosted: seq<ScoredEntry>, plain: seq<ScoredEntry>)
    requires |sim| == |rows|
    requires Ranked(boosted) && multiset(boosted) == multiset(Scored(rows, BoostedScores(sim, Categories(rows), boost, 0.0)))
    requires Ranked(plain) && multiset(plain) == multiset(Scored(rows, sim))
    ensures boosted == plain
  {
    BoostWithoutEffect(sim, Categories(rows), boost, 0.0);
    RankingIsUnique(boosted, plain);
  }

  /** Copies the scored rows into an array and sorts it (app.py:117). */
  method Rank(scored: seq<ScoredEntry>) returns (out: seq<ScoredEntry>)
    requires forall k :: 0 <= k < |scored| ==> scored[k].index == k
    ensures Ranked(out)
    ensures multiset(out) == multiset(scored)
  {
    var a := new ScoredEntry[|scored|](k requires 0 <= k < |scored| => scored[k]);
    assert a[..] == scored;
    SortRanked(a);
    out := a[..];
  }

  /** `score_and_rank` (app.py:91-118) once the query's similarity to each row
      is known: detect categories when auto-boost is on, boost, attach the
      scores and sort. */
  method ScoreAndRank(rows: seq<Entry>, sim: seq<real>, query: string, manual: seq<string>, autoBoost: bool, w: real)
    returns (out: seq<ScoredEntry>)
    requires |sim| == |rows|
    ensures multiset(out) == multiset(Scored(rows, BoostedScores(sim, Categories(rows), RequestBoostSet(manual, autoBoost, query), w)))
    ensures Ranked(out)
    ensures |out| == |rows|
    ensures forall p :: 0 <= p < |out| ==> out[p].index < |rows| && out[p].entry == rows[out[p].index]
    ensures forall p :: 0 <= p < |out| ==> (out[p].score ==
      if Boosted(rows[out[p].index].category, RequestBoostSet(manual, autoBoost, query))
      then sim[out[p].index] * (1.0 + w) else sim[out[p].index])
    ensures RankedByKeys(out)
  {
    var detected: seq<string> := [];
    if autoBoost {
      var _, d := ExpandQuery(query);
      detected := d;
    }
    var boost := BoostSet(manual, detected);
    var cats := Categories(rows);
    var scores := Boost(sim, cats, boost, w);
    out := Rank(Scored(rows, scores));
    RankingCoversEachRowOnce(out, rows, scores);
    RankedHasKeyOrder(out);
  }

  /** The path through `load_sources` (app.py:54, 146, 191-197): the table is
      checked and filled, then its rows are ranked. On success every ranked
      row has a site name and a category, so equal scores are ordered by the
      names as strings. */
  method RankLoaded(f: Frame, sim: seq<real>, query: string, manual: seq<string>, autoBoost: bool, w: real)
    returns (r: LoadResult, rows: seq<Entry>, out: seq<ScoredEntry>)
    requires f.Valid() && |sim| == f.height
    modifies f
    ensures f.Valid() && f.columns == old(f.columns) && f.height == old(f.height)
    ensures r == if MissingColumns(f.columns) == [] then Loaded else MissingColumnsError(MissingColumns(f.columns))
    ensures r.MissingColumnsError? ==> rows == [] && out == [] && f.cells == old(f.cells)
    ensures r.Loaded? ==> f.cells == FillColumns(old(f.cells), FillOrder)
    ensures r.Loaded? ==> f.Filled() && rows == f.Entries()
    ensures |rows| == |sim| || r.MissingColumnsError?
    ensures r.Loaded? ==> Ranked(out) && |out| == |rows|
    ensures r.Loaded? ==> multiset(out) == multiset(Scored(rows,
      BoostedScores(sim, Categories(rows), RequestBoostSet(manual, autoBoost, query), w)))
    ensures r.Loaded? ==> forall p :: 0 <= p < |out| ==> out[p].entry.siteName.Text? && out[p].entry.category.Text?
    ensures r.Loaded? ==> forall p, q :: 0 <= p < q < |out| && out[p].score == out[q].score ==>
      LessEq(out[p].entry.siteName.text, out[q].entry.siteName.text)
  {
    rows, out := [], [];
    r := f.LoadSources();
    if r.Loaded? {
      rows := f.Entries();
      assert forall i :: 0 <= i < |rows| ==> rows[i].siteName.Text? && rows[i].category.Text?;
      out := ScoreAndRank(rows, sim, query, manual, autoBoost, w);
      assert forall p :: 0 <= p < |out| ==> out[p].entry.siteName.Text? && out[p].entry.category.Text?;
      NamedRowsRankByString(out);
    }
  }
}
