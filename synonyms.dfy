/** Synonym-driven category detection (`expand_query_with_synonyms`): the
    static table of categories and their trigger words, case folding, the
    substring test, and the loop that collects the categories a query
    mentions. */
module Synonyms {

  /** A row of the synonym table: a category label and its trigger words. */
  type Row = (string, seq<string>)

  /** `CATEGORY_SYNONYMS` (app.py:22-30), in the dictionary's insertion order,
      which is the order Python iterates it in. */
  const CategorySynonyms: seq<Row> := [
    ("정부·공공 데이터", ["정부", "공공", "통계", "상권", "행정", "정책", "KDI", "통계청", "공공데이터", "KOSIS", "PRISM", "NKIS"]),
    ("해외 동향", ["해외", "글로벌", "국제", "OECD", "Deloitte", "PwC", "Accenture", "Ipsos", "Consumer Reports", "국외"]),
    ("회사 동향", ["기업", "경쟁사", "IR", "스타트업", "증권", "애널리스트", "컨센서스", "한경", "THE VC", "DART", "재무"]),
    ("산업 동향", ["산업", "시장", "트렌드", "콘텐츠", "광고", "IT", "무역", "핀테크", "프랜차이즈", "식품", "미디어"]),
    ("마케팅 조사", ["조사", "서베이", "여론", "컨슈머", "갤럽", "오픈서베이", "칸타", "TrendWatching", "패널"]),
    ("학술", ["학술", "논문", "스칼라", "아카데믹", "국회도서관", "학위논문"]),
    ("뉴스레터", ["뉴스레터", "어피티", "뉴닉", "캐릿", "스타트업 위클리", "콘텐타", "어거스트", "요약"])
  ]

  /** Case folding of one character: the ASCII capitals map to their small
      letters, every other character (Hangul included) is its own lower case. */
  function LowerChar(c: char): (r: char)
    ensures 'A' <= c <= 'Z' ==> r != c && 'a' <= r <= 'z'
    ensures !('A' <= c <= 'Z') ==> r == c
  {
    if 'A' <= c <= 'Z' then (c as int - 'A' as int + 'a' as int) as char else c
  }

  /** `str.lower()`, character by character. */
  function Lower(s: string): (r: string)
    ensures |r| == |s|
    ensures forall i :: 0 <= i < |s| ==> r[i] == LowerChar(s[i])
  {
    seq(|s|, i requires 0 <= i < |s| => LowerChar(s[i]))
  }

  /** `needle` occurs in `hay` starting at position `i`. */
  ghost predicate OccursAt(hay: string, needle: string, i: int) {
    0 <= i && i + |needle| <= |hay| && hay[i..i + |needle|] == needle
  }

  /** Python's `needle in hay` on strings: a substring test. */
  function Contains(hay: string, needle: string): (r: bool)
    ensures r <==> exists i :: OccursAt(hay, needle, i)
    decreases |hay|
  {
    if |needle| > |hay| then
      assert forall i :: !OccursAt(hay, needle, i);
      false
    else if hay[..|needle|] == needle then
      assert OccursAt(hay, needle, 0);
      true
    else
      var r := Contains(hay[1..], needle);
      assert forall i :: OccursAt(hay[1..], needle, i) <==> OccursAt(hay, needle, i + 1) by {
        forall i ensures OccursAt(hay[1..], needle, i) <==> OccursAt(hay, needle, i + 1) {
          if 0 <= i && i + |needle| <= |hay[1..]| {
            assert hay[1..][i..i + |needle|] == hay[i + 1..i + 1 + |needle|];
          }
        }
      }
      assert r ==> exists i :: OccursAt(hay, needle, i) by {
        if r {
          var i :| OccursAt(hay[1..], needle, i);
          assert OccursAt(hay, needle, i + 1);
        }
      }
      assert (exists i :: OccursAt(hay, needle, i)) ==> r by {
        if exists i :: OccursAt(hay, needle, i) {
          var i :| OccursAt(hay, needle, i);
          assert i != 0;
          assert OccursAt(hay[1..], needle, i - 1);
        }
      }
      r
  }

  /** The test of app.py:84 for one table row: some synonym, or the label
      itself, lower-cased, is a substring of the lower-cased query `qLow`. */
  predicate Selected(row: Row, qLow: string): (r: bool)
    ensures r <==> (exists s, i :: s in row.1 && OccursAt(qLow, Lower(s), i)) || exists i :: OccursAt(qLow, Lower(row.0), i)
  {
    (exists s :: s in row.1 && Contains(qLow, Lower(s))) || Contains(qLow, Lower(row.0))
  }

  /** The labels of the selected rows, in table order. */
  function Detect(table: seq<Row>, qLow: string): seq<string>
    decreases |table|
  {
    if table == [] then []
    else
      var last := table[|table| - 1];
      Detect(table[..|table| - 1], qLow) + (if Selected(last, qLow) then [last.0] else [])
  }

  /** `expand_query_with_synonyms` (app.py:80-86): returns the query itself and
      the categories it mentions. */
  method ExpandQuery(q: string) returns (qOut: string, cats: seq<string>)
    ensures qOut == q
    ensures cats == Detect(CategorySynonyms, Lower(q))
  {
    var qLow := Lower(q);
    cats := [];
    for k := 0 to |CategorySynonyms|
      invariant cats == Detect(CategorySynonyms[..k], qLow)
    {
      var (cat, syns) := CategorySynonyms[k];
      assert CategorySynonyms[..k + 1][..k] == CategorySynonyms[..k];
      if (exists s :: s in syns && Contains(qLow, Lower(s))) || Contains(qLow, Lower(cat)) {
        cats := cats + [cat];
      }
    }
    assert CategorySynonyms[..|CategorySynonyms|] == CategorySynonyms;
    qOut := q;
  }

  /** A category is detected exactly when its row of the table is selected. */
  lemma {:induction false} DetectMember(table: seq<Row>, qLow: string, x: string)
    ensures x in Detect(table, qLow) <==>
      exists k :: 0 <= k < |table| && table[k].0 == x && Selected(table[k], qLow)
    decreases |table|
  {
    if table != [] {
      var n := |table| - 1;
      var init := table[..n];
      DetectMember(init, qLow, x);
      assert forall k :: 0 <= k < n ==> init[k] == table[k];
      if x in Detect(table, qLow) && x !in Detect(init, qLow) {
        assert table[n].0 == x && Selected(table[n], qLow);
      }
    }
  }

  /** Nothing is detected exactly when no row is selected. */
  lemma DetectEmpty(table: seq<Row>, qLow: string)
    ensures Detect(table, qLow) == [] <==> forall k :: 0 <= k < |table| ==> !Selected(table[k], qLow)
  {
    if Detect(table, qLow) != [] {
      DetectMember(table, qLow, Detect(table, qLow)[0]);
    } else {
      forall k | 0 <= k < |table| ensures !Selected(table[k], qLow) {
        DetectMember(table, qLow, table[k].0);
      }
    }
  }

  /** Detected categories keep the order of the table: any two of them come
      from rows in the same relative order. */
  lemma {:induction false} DetectInTableOrder(table: seq<Row>, qLow: string, i: int, j: int)
    requires 0 <= i < j < |Detect(table, qLow)|
    ensures exists a, b :: 0 <= a < b < |table| && table[a].0 == Detect(table, qLow)[i] && table[b].0 == Detect(table, qLow)[j]
    decreases |table|
  {
    var n := |table| - 1;
    var init := table[..n];
    var d := Detect(table, qLow);
    assert forall k :: 0 <= k < n ==> init[k] == table[k];
    if j < |Detect(init, qLow)| {
      DetectInTableOrder(init, qLow, i, j);
      var a, b :| 0 <= a < b < |init| && init[a].0 == Detect(init, qLow)[i] && init[b].0 == Detect(init, qLow)[j];
      assert table[a].0 == d[i] && table[b].0 == d[j];
    } else {
      assert d[j] == table[n].0;
      assert d[i] in Detect(init, qLow);
      DetectMember(init, qLow, d[i]);
      var a :| 0 <= a < n && init[a].0 == d[i];
      assert table[a].0 == d[i];
    }
  }

  /** No two rows of the table carry the same label. */
  ghost predicate LabelsDistinct(table: seq<Row>) {
    forall a, b :: 0 <= a < b < |table| ==> table[a].0 != table[b].0
  }

  /** With distinct labels, each category is detected at most once. */
  lemma {:induction false} DetectNoDuplicates(table: seq<Row>, qLow: string)
    requires LabelsDistinct(table)
    ensures forall i, j :: 0 <= i < j < |Detect(table, qLow)| ==> Detect(table, qLow)[i] != Detect(table, qLow)[j]
    decreases |table|
  {
    if table != [] {
      var n := |table| - 1;
      var init := table[..n];
      assert forall k :: 0 <= k < n ==> init[k] == table[k];
      DetectNoDuplicates(init, qLow);
      DetectMember(init, qLow, table[n].0);
      assert table[n].0 !in Detect(init, qLow);
    }
  }

  lemma CategorySynonymsLabelsDistinct()
    ensures LabelsDistinct(CategorySynonyms)
  {
  }

  /** A query naming the synonym "상권" (commercial district) is routed to the
      public-data category. */
  lemma MarketQueryDetectsPublicData()
    ensures "정부·공공 데이터" in Detect(CategorySynonyms, Lower("상권 분석"))
  {
    var qLow := Lower("상권 분석");
    assert qLow == "상권 분석";
    assert OccursAt(qLow, "상권", 0);
    assert Lower("상권") == "상권";
    assert "상권" in CategorySynonyms[0].1;
    assert Selected(CategorySynonyms[0], qLow);
    DetectMember(CategorySynonyms, qLow, "정부·공공 데이터");
  }
}
