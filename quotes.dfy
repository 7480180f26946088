/**
 * The computed part of the quotes site's index page: the ten most quoted tags, and the quote
 * list in descending id order, narrowed to one tag when the request names one. Pagination,
 * rendering and the scraping import are not part of this model.
 */
module Quotes {
  import opened Results
  import opened Seqs
  import opened Strings

  datatype Tag = Tag(id: int, name: string)

  /** A quote, reduced to its id and the ids of its tags (the many-to-many `tags` relation). */
  datatype Quote = Quote(id: int, tagIds: set<int>)

  /** `Tag.name` is a UNIQUE column. */
  ghost predicate UniqueTagNames(tags: seq<Tag>) {
    forall i, j :: 0 <= i < j < |tags| ==> tags[i].name != tags[j].name
  }

  function Carries(tagId: int): Quote -> bool {
    (q: Quote) => tagId in q.tagIds
  }

  /** The number of quotes that reference the tag. */
  function QuoteCount(quotes: seq<Quote>, tagId: int): nat {
    |Filter(quotes, Carries(tagId))|
  }

  /** The sort key `(quote count, name)`. */
  datatype RankKey = RankKey(count: nat, name: string)

  function KeyOf(t: Tag, quotes: seq<Quote>): RankKey {
    RankKey(QuoteCount(quotes, t.id), t.name)
  }

  /** Python's `<` on the key tuple: by count, then by name. */
  predicate KeyBelow(a: RankKey, b: RankKey) {
    a.count < b.count || (a.count == b.count && StrBelow(a.name, b.name))
  }

  lemma KeyBelowIrreflexive(a: RankKey)
    ensures !KeyBelow(a, a)
  {
    StrBelowIrreflexive(a.name);
  }

  lemma KeyBelowTransitive(a: RankKey, b: RankKey, c: RankKey)
    requires KeyBelow(a, b) && KeyBelow(b, c)
    ensures KeyBelow(a, c)
  {
    if a.count == b.count == c.count {
      StrBelowTransitive(a.name, b.name, c.name);
    }
  }

  /** "Not below" is transitive: the descending order is a total preorder. */
  lemma AtLeastTransitive(a: RankKey, b: RankKey, c: RankKey)
    requires !KeyBelow(a, b) && !KeyBelow(b, c)
    ensures !KeyBelow(a, c)
  {
    if KeyBelow(a, c) {
      if b == c {
      } else {
        if b.count == c.count {
          StrBelowTotal(b.name, c.name);
        }
        KeyBelowTransitive(a, c, b);
      }
    }
  }

  /** The key `get_top10tags` sorts by, as a function value like Python's `key=`. */
  function ByQuoteCount(quotes: seq<Quote>): Tag -> RankKey {
    (t: Tag) => KeyOf(t, quotes)
  }

  /** Every tag ranks at least as high as every tag after it. */
  ghost predicate SortedDesc(s: seq<Tag>, key: Tag -> RankKey) {
    forall i, j :: 0 <= i < j < |s| ==> !KeyBelow(key(s[i]), key(s[j]))
  }

  /** Places `t` in front of the first tag it ranks at least as high as. */
  function Insert(t: Tag, ranked: seq<Tag>, key: Tag -> RankKey): seq<Tag> {
    if ranked == [] || !KeyBelow(key(t), key(ranked[0])) then [t] + ranked
    else [ranked[0]] + Insert(t, ranked[1..], key)
  }

  lemma SortedDescTail(s: seq<Tag>, key: Tag -> RankKey)
    requires SortedDesc(s, key) && s != []
    ensures SortedDesc(s[1..], key)
  {
    forall i, j | 0 <= i < j < |s[1..]| ensures !KeyBelow(key(s[1..][i]), key(s[1..][j])) {
      assert s[1..][i] == s[i + 1] && s[1..][j] == s[j + 1];
    }
  }

  lemma {:induction false} InsertPermutes(t: Tag, ranked: seq<Tag>, key: Tag -> RankKey)
    ensures multiset(Insert(t, ranked, key)) == multiset(ranked) + multiset{t}
  {
    if ranked != [] && KeyBelow(key(t), key(ranked[0])) {
      InsertPermutes(t, ranked[1..], key);
      assert ranked == [ranked[0]] + ranked[1..];
    }
  }

  /** A tag that outranks `t` and everything in `ranked` still outranks everything after inserting `t`. */
  lemma OutranksInserted(head: Tag, t: Tag, ranked: seq<Tag>, key: Tag -> RankKey)
    requires !KeyBelow(key(head), key(t))
    requires forall k :: 0 <= k < |ranked| ==> !KeyBelow(key(head), key(ranked[k]))
    ensures forall x :: x in Insert(t, ranked, key) ==> !KeyBelow(key(head), key(x))
  {
    InsertPermutes(t, ranked, key);
    forall x | x in Insert(t, ranked, key) ensures !KeyBelow(key(head), key(x)) {
      assert x in multiset(Insert(t, ranked, key));
      if x != t {
        assert x in multiset(ranked);
        var k :| 0 <= k < |ranked| && ranked[k] == x;
      }
    }
  }

  lemma {:induction false} InsertSorted(t: Tag, ranked: seq<Tag>, key: Tag -> RankKey)
    requires SortedDesc(ranked, key)
    ensures SortedDesc(Insert(t, ranked, key), key)
  {
    if ranked == [] {
    } else if !KeyBelow(key(t), key(ranked[0])) {
      var r := [t] + ranked;
      forall i, j | 0 <= i < j < |r| ensures !KeyBelow(key(r[i]), key(r[j])) {
        if i == 0 && j > 1 {
          AtLeastTransitive(key(t), key(ranked[0]), key(ranked[j - 1]));
        }
      }
    } else {
      var head := ranked[0];
      var rest := Insert(t, ranked[1..], key);
      SortedDescTail(ranked, key);
      InsertSorted(t, ranked[1..], key);
      if KeyBelow(key(head), key(t)) {
        KeyBelowTransitive(key(t), key(head), key(t));
        KeyBelowIrreflexive(key(t));
      }
      OutranksInserted(head, t, ranked[1..], key);
      var r := [head] + rest;
      forall i, j | 0 <= i < j < |r| ensures !KeyBelow(key(r[i]), key(r[j])) {
        assert r[j] == rest[j - 1] && r[j] in rest;
        if i > 0 {
          assert r[i] == rest[i - 1];
        }
      }
    }
  }

  /** `sorted(tags, key=key, reverse=True)`: the same tags, descending by key. */
  function Rank(tags: seq<Tag>, key: Tag -> RankKey): (r: seq<Tag>)
    ensures multiset(r) == multiset(tags)
    ensures SortedDesc(r, key)
  {
    if tags == [] then []
    else
      var rest := Rank(tags[1..], key);
      InsertPermutes(tags[0], rest, key);
      InsertSorted(tags[0], rest, key);
      assert tags == [tags[0]] + tags[1..];
      Insert(tags[0], rest, key)
  }

  /** A prefix of a descending ranking outranks everything the ranking holds after it. */
  lemma PrefixOutranksRest(ranked: seq<Tag>, n: nat, key: Tag -> RankKey, t: Tag)
    requires SortedDesc(ranked, key) && n <= |ranked|
    requires t in ranked && t !in ranked[..n]
    ensures forall u :: u in ranked[..n] ==> !KeyBelow(key(u), key(t))
  {
    var j :| 0 <= j < |ranked| && ranked[j] == t;
    assert j >= n;
    forall u | u in ranked[..n] ensures !KeyBelow(key(u), key(t)) {
      var i :| 0 <= i < n && ranked[..n][i] == u;
      assert ranked[i] == u;
    }
  }

  /**
   * The first `n` tags of a descending ranking of `tags` are a true top `n`: drawn from `tags`,
   * and no tag left out outranks one kept.
   */
  lemma RankedPrefixIsTop(tags: seq<Tag>, ranked: seq<Tag>, n: nat, key: Tag -> RankKey)
    requires multiset(ranked) == multiset(tags) && SortedDesc(ranked, key) && n <= |tags|
    ensures |ranked| == |tags|
    ensures forall t :: t in ranked[..n] ==> t in tags
    ensures SortedDesc(ranked[..n], key)
    ensures forall t, u :: t in tags && t !in ranked[..n] && u in ranked[..n] ==> !KeyBelow(key(u), key(t))
    ensures Distinct(tags) ==> Distinct(ranked[..n])
  {
    if Distinct(tags) {
      PermutationDistinct(tags, ranked);
      PrefixDistinct(ranked, n);
    }
    assert |ranked| == |multiset(ranked)| == |tags|;
    assert forall i :: 0 <= i < n ==> ranked[..n][i] == ranked[i];
    assert forall t :: t in ranked[..n] ==> t in multiset(ranked);
    forall t | t in tags && t !in ranked[..n]
      ensures forall u :: u in ranked[..n] ==> !KeyBelow(key(u), key(t))
    {
      assert t in multiset(tags);
      PrefixOutranksRest(ranked, n, key, t);
    }
  }

  /**
   * `get_top10tags`: the ten highest-ranked tags (fewer when there are fewer), best first, and
   * a true top ten: no tag left out outranks a tag returned.
   */
  function Top10Tags(tags: seq<Tag>, quotes: seq<Quote>): (r: seq<Tag>)
    ensures |r| == if |tags| < 10 then |tags| else 10
    ensures forall t :: t in r ==> t in tags
    ensures SortedDesc(r, ByQuoteCount(quotes))
    ensures forall t, u :: t in tags && t !in r && u in r ==> !KeyBelow(KeyOf(u, quotes), KeyOf(t, quotes))
    ensures Distinct(tags) ==> Distinct(r)
  {
    var key := ByQuoteCount(quotes);
    var ranked := Rank(tags, key);
    var n := if |tags| < 10 then |tags| else 10;
    RankedPrefixIsTop(tags, ranked, n, key);
    ranked[..n]
  }

  /**
   * The name tie-break: "Wisdom" and "Life" quoted equally often come out as "Wisdom" then
   * "Life", whichever order the tag table holds them in.
   */
  lemma WisdomBeforeLife(quotes: seq<Quote>, wisdom: Tag, life: Tag)
    requires wisdom.name == "Wisdom" && life.name == "Life"
    requires QuoteCount(quotes, wisdom.id) == QuoteCount(quotes, life.id)
    ensures Top10Tags([life, wisdom], quotes) == [wisdom, life]
    ensures Top10Tags([wisdom, life], quotes) == [wisdom, life]
  {
    var key := ByQuoteCount(quotes);
    assert StrBelow("Life", "Wisdom");
    assert KeyBelow(key(life), key(wisdom));
    assert !KeyBelow(key(wisdom), key(life)) by {
      if KeyBelow(key(wisdom), key(life)) {
        KeyBelowTransitive(key(wisdom), key(life), key(wisdom));
        KeyBelowIrreflexive(key(wisdom));
      }
    }
    assert [life, wisdom][1..] == [wisdom];
    assert [wisdom, life][1..] == [life];
    assert Rank([wisdom], key) == [wisdom];
    assert Rank([life], key) == [life];
    assert Insert(life, [wisdom], key) == [wisdom] + Insert(life, [], key);
  }

  /** What reading an attribute a model instance does not have raises. */
  datatype AttributeError = NoSuchAttribute(name: string)

  /**
   * `get_top10tags` as written against the models as declared: its key reads `tag.quotes`, but
   * `Quote.tags` declares no `related_name`, so the reverse accessor is `tag.quote_set`; the key
   * raises on the first tag it is applied to, and only an empty tag table sorts without it.
   */
  function Top10TagsAsWritten(tags: seq<Tag>, quotes: seq<Quote>): Result<seq<Tag>, AttributeError> {
    if tags == [] then Success([]) else Failure(NoSuchAttribute("quotes"))
  }

  /** Wherever there is a tag to rank, the code as written fails while the intended ranking returns tags. */
  lemma AsWrittenFailsWhereRankingSucceeds(tags: seq<Tag>, quotes: seq<Quote>)
    requires tags != []
    ensures Top10TagsAsWritten(tags, quotes).Failure?
    ensures Top10Tags(tags, quotes) != [] && Top10Tags(tags, quotes)[0] in tags
  {
  }

  /** Every quote has an id no smaller than that of every quote after it. */
  ghost predicate IdsDescending(s: seq<Quote>) {
    forall i, j :: 0 <= i < j < |s| ==> s[i].id >= s[j].id
  }

  function InsertById(q: Quote, s: seq<Quote>): seq<Quote> {
    if s == [] || q.id >= s[0].id then [q] + s else [s[0]] + InsertById(q, s[1..])
  }

  lemma {:induction false} InsertByIdPermutes(q: Quote, s: seq<Quote>)
    ensures multiset(InsertById(q, s)) == multiset(s) + multiset{q}
  {
    if s != [] && q.id < s[0].id {
      InsertByIdPermutes(q, s[1..]);
      assert s == [s[0]] + s[1..];
    }
  }

  lemma {:induction false} InsertByIdSorted(q: Quote, s: seq<Quote>)
    requires IdsDescending(s)
    ensures IdsDescending(InsertById(q, s))
  {
    if s != [] && q.id < s[0].id {
      InsertByIdSorted(q, s[1..]);
      var rest := InsertById(q, s[1..]);
      InsertByIdPermutes(q, s[1..]);
      forall k | 0 <= k < |rest| ensures s[0].id >= rest[k].id {
        assert rest[k] in multiset(rest);
        if rest[k] != q {
          assert rest[k] in multiset(s[1..]);
        }
      }
    }
  }

  /** `Quote.objects.all().order_by('-id')`. */
  function ByIdDesc(quotes: seq<Quote>): (r: seq<Quote>)
    ensures multiset(r) == multiset(quotes)
    ensures IdsDescending(r)
  {
    if quotes == [] then []
    else
      var rest := ByIdDesc(quotes[1..]);
      InsertByIdPermutes(quotes[0], rest);
      InsertByIdSorted(quotes[0], rest);
      assert quotes == [quotes[0]] + quotes[1..];
      InsertById(quotes[0], rest)
  }

  /** Narrowing a list keeps it in descending id order. */
  lemma {:induction false} FilterKeepsIdOrder(s: seq<Quote>, p: Quote -> bool)
    requires IdsDescending(s)
    ensures IdsDescending(Filter(s, p))
  {
    if s != [] {
      FilterKeepsIdOrder(s[1..], p);
      var rest := Filter(s[1..], p);
      if p(s[0]) {
        forall k | 0 <= k < |rest| ensures s[0].id >= rest[k].id {
          assert rest[k] in s[1..];
        }
      }
    }
  }

  function Named(name: string): Tag -> bool {
    (t: Tag) => t.name == name
  }

  /** With unique names, narrowing to the tag found by name is narrowing to any tag of that name. */
  lemma NarrowToNamedTag(ordered: seq<Quote>, quotes: seq<Quote>, tags: seq<Tag>, k: nat)
    requires UniqueTagNames(tags) && k < |tags|
    requires multiset(ordered) == multiset(quotes)
    ensures forall t, q :: t in tags && t.name == tags[k].name
              ==> (q in Filter(ordered, Carries(tags[k].id)) <==> q in quotes && t.id in q.tagIds)
  {
    forall t, q | t in tags && t.name == tags[k].name
      ensures q in Filter(ordered, Carries(tags[k].id)) <==> q in quotes && t.id in q.tagIds
    {
      var j :| 0 <= j < |tags| && tags[j] == t;
      assert j == k;
      assert q in ordered <==> q in multiset(quotes);
    }
  }

  /**
   * The quote list of `main`: all quotes, highest id first. A non-empty `tag_name` selects the
   * tag named `tag_name.capitalize()` and keeps, in the same order, only the quotes carrying it;
   * when no tag has that name the list is empty.
   */
  function ListQuotes(quotes: seq<Quote>, tags: seq<Tag>, tagName: Option<string>): (r: seq<Quote>)
    requires UniqueTagNames(tags)
    ensures IdsDescending(r)
    ensures forall q :: q in r ==> q in quotes
    ensures (tagName.None? || tagName.value == "") ==> multiset(r) == multiset(quotes)
    ensures (tagName.Some? && tagName.value != "" && forall t :: t in tags ==> t.name != Capitalize(tagName.value))
            ==> r == []
    ensures tagName.Some? && tagName.value != "" ==>
              forall t, q :: t in tags && t.name == Capitalize(tagName.value)
                ==> (q in r <==> q in quotes && t.id in q.tagIds)
    ensures tagName.Some? && tagName.value != "" ==>
              forall t :: t in tags && t.name == Capitalize(tagName.value)
                ==> multiset(r) == multiset(Filter(quotes, Carries(t.id)))
    ensures IsSubsequence(r, ByIdDesc(quotes))
  {
    var ordered := ByIdDesc(quotes);
    assert forall q :: q in ordered <==> q in multiset(quotes);
    if tagName.None? || tagName.value == "" then
      IsSubsequenceReflexive(ordered);
      ordered
    else
      match FirstIndex(tags, Named(Capitalize(tagName.value)))
      case None => []
      case Some(k) =>
        FilterKeepsIdOrder(ordered, Carries(tags[k].id));
        NarrowToNamedTag(ordered, quotes, tags, k);
        FilterPermutation(ordered, quotes, Carries(tags[k].id));
        Filter(ordered, Carries(tags[k].id))
  }
}
