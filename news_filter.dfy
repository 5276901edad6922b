/**
 * The content filter and normalisation of the `/news` handler: the upstream
 * article list is filtered (both title and description present, no excluded
 * word in either) and every survivor is reshaped into the record the API serves.
 */
module NewsFilter {
  import opened Wrappers

  /**
   * A string-valued JSON field. An absent key and an explicit `null` are kept
   * apart: `new Date(undefined)` and `new Date(null)` render differently, and
   * `res.json` omits an undefined key but writes a null one.
   */
  datatype Field = Missing | Null | Text(text: string)

  /** `new Date(publishedAt).toLocaleString()`, whose text depends on locale and time zone. */
  type Localize = Field -> string

  /** The `source` object of an upstream article. */
  datatype RawSource = RawSource(name: Field)

  /** One element of the upstream `articles` array; a null or absent `source` is None. */
  datatype RawArticle = RawArticle(
    title: Field,
    description: Field,
    url: Field,
    urlToImage: Field,
    publishedAt: Field,
    source: Option<RawSource>)

  /** The normalised record served to clients. */
  datatype Article = Article(
    title: string,
    description: string,
    url: Field,
    image: Field,
    source: Field,
    publishedAt: string)

  /** Why the handler's `try` block threw before the cache was written. */
  datatype FetchError =
    | UpstreamFailed(message: string)  // the HTTP request itself failed
    | ArticlesMissing                  // the response body has no `articles` list
    | SourceMissing                    // a surviving article has no `source` object

  /** The words that mark an article as entertainment rather than sport. */
  const ExcludedWords: seq<string> := [
    "movie", "film", "celebrity", "entertainment", "music", "album",
    "concert", "festival", "actor", "actress", "director"
  ]

  /** JavaScript truthiness of a string field: null, undefined and "" are all false. */
  predicate Truthy(field: Field)
  {
    field.Text? && field.text != ""
  }

  /** `toLowerCase` on one character, restricted to ASCII letters. */
  function LowerChar(c: char): char
  {
    if 'A' <= c <= 'Z' then (c as int - 'A' as int + 'a' as int) as char else c
  }

  /** `toLowerCase` on a string, character by character. */
  function Lower(s: string): (r: string)
    ensures |r| == |s|
    ensures forall i :: 0 <= i < |r| ==> !('A' <= r[i] <= 'Z')
    ensures forall i :: 0 <= i < |s| && 'A' <= s[i] <= 'Z' ==> r[i] == (s[i] as int - 'A' as int + 'a' as int) as char
    ensures forall i :: 0 <= i < |s| && !('A' <= s[i] <= 'Z') ==> r[i] == s[i]
  {
    seq(|s|, i requires 0 <= i < |s| => LowerChar(s[i]))
  }

  /** `s.includes(w)`, computed by trying every start position from the left. */
  function Includes(s: string, w: string): bool
    decreases |s|
  {
    |w| <= |s| && (s[..|w|] == w || Includes(s[1..], w))
  }

  /** w occurs in s starting at position i. */
  ghost predicate OccursAt(s: string, w: string, i: int)
  {
    0 <= i && i + |w| <= |s| && s[i..i + |w|] == w
  }

  /** Includes is the substring relation: it holds exactly when w occurs somewhere in s. */
  lemma {:induction false} IncludesIffOccurs(s: string, w: string)
    ensures Includes(s, w) <==> exists i :: OccursAt(s, w, i)
    decreases |s|
  {
    if |w| > |s| {
      assert forall i :: !OccursAt(s, w, i);
    } else if s[..|w|] == w {
      assert OccursAt(s, w, 0);
    } else {
      IncludesIffOccurs(s[1..], w);
      assert !OccursAt(s, w, 0);
      forall i | OccursAt(s, w, i)
        ensures OccursAt(s[1..], w, i - 1)
      {
        assert s[1..][i - 1..i - 1 + |w|] == s[i..i + |w|];
      }
      forall i | OccursAt(s[1..], w, i)
        ensures OccursAt(s, w, i + 1)
      {
        assert s[1..][i..i + |w|] == s[i + 1..i + 1 + |w|];
      }
    }
  }

  /** The `excludedWords.some(...)` test over the lower-cased title and description. */
  predicate MentionsExcluded(lowerTitle: string, lowerDesc: string)
  {
    exists w :: w in ExcludedWords && (Includes(lowerTitle, w) || Includes(lowerDesc, w))
  }

  /** The `filter` callback: true when the article is kept. */
  predicate Keep(a: RawArticle)
  {
    Truthy(a.title) && Truthy(a.description) &&
    !MentionsExcluded(Lower(a.title.text), Lower(a.description.text))
  }

  /**
   * An article is kept exactly when its title and description are present and
   * non-empty and no excluded word occurs anywhere (as a substring, not as a
   * whole word) in either of them once lower-cased.
   */
  lemma KeepIff(a: RawArticle)
    ensures Keep(a) <==>
      a.title.Text? && a.title.text != "" &&
      a.description.Text? && a.description.text != "" &&
      forall w, i :: w in ExcludedWords ==>
        !OccursAt(Lower(a.title.text), w, i) && !OccursAt(Lower(a.description.text), w, i)
  {
    if Truthy(a.title) && Truthy(a.description) {
      var lt, ld := Lower(a.title.text), Lower(a.description.text);
      forall w | w in ExcludedWords
        ensures (Includes(lt, w) || Includes(ld, w)) <==> exists i :: OccursAt(lt, w, i) || OccursAt(ld, w, i)
      {
        IncludesIffOccurs(lt, w);
        IncludesIffOccurs(ld, w);
      }
    }
  }

  /**
   * An occurrence of an excluded word anywhere in the lower-cased title or
   * description drops the article, whatever surrounds it: the test matches
   * substrings, not whole words.
   */
  lemma ExcludedOccurrenceDrops(a: RawArticle, w: string, i: int)
    requires a.title.Text? && a.description.Text?
    requires w in ExcludedWords
    requires OccursAt(Lower(a.title.text), w, i) || OccursAt(Lower(a.description.text), w, i)
    ensures !Keep(a)
  {
    KeepIff(a);
  }

  /** Example: "film" rejects a headline that says "Filmed". */
  lemma FilmRejectsFilmed(a: RawArticle)
    requires a.title == Text("Filmed live at Wembley") && a.description == Text("Cup final")
    ensures !Keep(a)
  {
    var lt := Lower(a.title.text);
    assert lt[..4] == "film";
    assert Includes(lt, "film");
    assert ExcludedWords[1] == "film";
  }

  /** Example: an excluded word in capitals still rejects the article, since the text is lower-cased first. */
  lemma CapitalsAreExcludedToo(a: RawArticle)
    requires a.title == Text("Match report") && a.description == Text("MUSIC")
    ensures !Keep(a)
  {
    var ld := Lower(a.description.text);
    assert ld == "music";
    assert Includes(ld, "music");
    assert ExcludedWords[4] == "music";
  }

  /** `articles.filter(Keep)`: the kept articles, in their original order. */
  function Filter(s: seq<RawArticle>): (r: seq<RawArticle>)
    ensures forall a :: a in r ==> a in s && Keep(a)
  {
    FilterBy(s, Keep)
  }

  /** `Array.prototype.filter` with a pure callback. */
  function FilterBy<T>(s: seq<T>, keep: T -> bool): (r: seq<T>)
    ensures forall a :: a in r ==> a in s && keep(a)
  {
    if s == [] then []
    else (if keep(s[0]) then [s[0]] else []) + FilterBy(s[1..], keep)
  }

  ghost predicate Increasing(idx: seq<nat>)
  {
    forall i, j :: 0 <= i < j < |idx| ==> idx[i] < idx[j]
  }

  /**
   * Filter picks out, in increasing position order, exactly the positions of
   * s whose article is kept: output k is s[idx[k]], and a kept article at
   * position j is output number |Filter(s[..j])|, the count kept before it.
   */
  lemma FilterPicks(s: seq<RawArticle>) returns (idx: seq<nat>)
    ensures |idx| == |Filter(s)|
    ensures Increasing(idx)
    ensures forall k :: 0 <= k < |idx| ==> idx[k] < |s| && Filter(s)[k] == s[idx[k]] && Keep(s[idx[k]])
    ensures forall j :: 0 <= j < |s| && Keep(s[j]) ==>
      |Filter(s[..j])| < |idx| && idx[|Filter(s[..j])|] == j
  {
    idx := FilterByPicks(s, Keep);
  }

  lemma FilterByPicks<T>(s: seq<T>, keep: T -> bool) returns (idx: seq<nat>)
    ensures |idx| == |FilterBy(s, keep)|
    ensures Increasing(idx)
    ensures forall k :: 0 <= k < |idx| ==> idx[k] < |s| && FilterBy(s, keep)[k] == s[idx[k]] && keep(s[idx[k]])
    ensures forall j :: 0 <= j < |s| && keep(s[j]) ==>
      |FilterBy(s[..j], keep)| < |idx| && idx[|FilterBy(s[..j], keep)|] == j
  {
    idx := Picks(s, keep);
    PicksSelect(s, keep);
    PicksIncreasing(s, keep);
    PicksComplete(s, keep);
  }

  /** The positions of s that FilterBy keeps, in order. */
  ghost function Picks<T>(s: seq<T>, keep: T -> bool): seq<nat>
  {
    if s == [] then [] else (if keep(s[0]) then [0] else []) + Shift(Picks(s[1..], keep))
  }

  lemma {:induction false} PicksSelect<T>(s: seq<T>, keep: T -> bool)
    ensures |Picks(s, keep)| == |FilterBy(s, keep)|
    ensures forall k :: 0 <= k < |Picks(s, keep)| ==>
      Picks(s, keep)[k] < |s| && FilterBy(s, keep)[k] == s[Picks(s, keep)[k]] && keep(s[Picks(s, keep)[k]])
  {
    if s != [] {
      PicksSelect(s[1..], keep);
      var rest, tail := Picks(s[1..], keep), FilterBy(s[1..], keep);
      var head: seq<nat> := if keep(s[0]) then [0] else [];
      var idx := Picks(s, keep);
      assert idx == head + Shift(rest);
      assert FilterBy(s, keep) == (if keep(s[0]) then [s[0]] else []) + tail;
      forall k | 0 <= k < |idx|
        ensures idx[k] < |s| && FilterBy(s, keep)[k] == s[idx[k]] && keep(s[idx[k]])
      {
        if k >= |head| {
          var r := rest[k - |head|];
          assert idx[k] == r + 1;
          assert tail[k - |head|] == s[1..][r];
        }
      }
    }
  }

  lemma {:induction false} PicksIncreasing<T>(s: seq<T>, keep: T -> bool)
    ensures Increasing(Picks(s, keep))
  {
    if s != [] {
      PicksIncreasing(s[1..], keep);
      PrependShiftIncreasing(if keep(s[0]) then [0] else [], Picks(s[1..], keep));
    }
  }

  lemma {:induction false} PicksComplete<T>(s: seq<T>, keep: T -> bool)
    ensures forall j :: 0 <= j < |s| && keep(s[j]) ==>
      |FilterBy(s[..j], keep)| < |Picks(s, keep)| && Picks(s, keep)[|FilterBy(s[..j], keep)|] == j
  {
    if s != [] {
      PicksComplete(s[1..], keep);
      var rest := Picks(s[1..], keep);
      var head: seq<nat> := if keep(s[0]) then [0] else [];
      var idx := Picks(s, keep);
      assert idx == head + Shift(rest);
      forall j | 0 <= j < |s| && keep(s[j])
        ensures |FilterBy(s[..j], keep)| < |idx| && idx[|FilterBy(s[..j], keep)|] == j
      {
        if j > 0 {
          assert keep(s[1..][j - 1]);
          var r := |FilterBy(s[1..][..j - 1], keep)|;
          assert r < |rest| && rest[r] == j - 1;
          assert s[..j][1..] == s[1..][..j - 1];
          assert |FilterBy(s[..j], keep)| == |head| + r;
          assert idx[|head| + r] == Shift(rest)[r];
        } else {
          assert s[..j] == [];
        }
      }
    }
  }

  /** Every position moved one place to the right. */
  ghost function Shift(rest: seq<nat>): seq<nat>
  {
    seq(|rest|, k requires 0 <= k < |rest| => rest[k] + 1)
  }

  /** Shifting an increasing list and putting position 0 (or nothing) in front keeps it increasing. */
  lemma PrependShiftIncreasing(head: seq<nat>, rest: seq<nat>)
    requires head == [] || head == [0]
    requires Increasing(rest)
    ensures Increasing(head + Shift(rest))
  {
  }

  /** The record a survivor maps to: text fields copied, image from urlToImage, source from source.name. */
  ghost predicate NormalisedFrom(o: Article, a: RawArticle, localize: Localize)
  {
    a.title == Text(o.title) && a.description == Text(o.description) &&
    o.url == a.url && o.image == a.urlToImage &&
    a.source.Some? && o.source == a.source.value.name &&
    o.publishedAt == localize(a.publishedAt)
  }

  /**
   * The `map` callback on one survivor. `localize` receives the raw
   * `publishedAt` field. Reading `source.name` of a missing source throws.
   */
  function Normalise(a: RawArticle, localize: Localize): (r: Result<Article, FetchError>)
    requires Truthy(a.title) && Truthy(a.description)
    ensures r.Ok? <==> a.source.Some?
    ensures r.Ok? ==> NormalisedFrom(r.value, a, localize)
    ensures r.Err? ==> r.error == SourceMissing
  {
    match a.source
    case None => Err(SourceMissing)
    case Some(src) =>
      Ok(Article(a.title.text, a.description.text, a.url, a.urlToImage, src.name, localize(a.publishedAt)))
  }

  /** `kept.map(Normalise)`, which throws at the first survivor without a source. */
  function MapNormalise(kept: seq<RawArticle>, localize: Localize): (r: Result<seq<Article>, FetchError>)
    requires forall a :: a in kept ==> Truthy(a.title) && Truthy(a.description)
    ensures r.Ok? <==> forall a :: a in kept ==> a.source.Some?
    ensures r.Err? ==> r.error == SourceMissing
    ensures r.Ok? ==> |r.value| == |kept|
    ensures r.Ok? ==> forall k :: 0 <= k < |kept| ==> NormalisedFrom(r.value[k], kept[k], localize)
  {
    if kept == [] then Ok([])
    else
      match Normalise(kept[0], localize)
      case Err(e) => Err(e)
      case Ok(first) =>
        match MapNormalise(kept[1..], localize)
        case Err(e) => Err(e)
        case Ok(rest) => Ok([first] + rest)
  }

  /** `response.data.articles.filter(...).map(...)`; an absent list throws. */
  function Process(articles: Option<seq<RawArticle>>, localize: Localize): Result<seq<Article>, FetchError>
  {
    match articles
    case None => Err(ArticlesMissing)
    case Some(raws) => MapNormalise(Filter(raws), localize)
  }

  /**
   * The pipeline fails only on a missing list, or on a KEPT article without a
   * source (a dropped article is never mapped, so its source is never read).
   */
  lemma ProcessFails(articles: Option<seq<RawArticle>>, localize: Localize)
    ensures articles.None? ==> Process(articles, localize) == Err(ArticlesMissing)
    ensures articles.Some? ==>
      (Process(articles, localize).Ok? <==>
        forall j :: 0 <= j < |articles.value| && Keep(articles.value[j]) ==> articles.value[j].source.Some?)
    ensures articles.Some? && Process(articles, localize).Err? ==> Process(articles, localize).error == SourceMissing
  {
    if articles.Some? {
      var raws := articles.value;
      var idx := FilterPicks(raws);
      if forall j :: 0 <= j < |raws| && Keep(raws[j]) ==> raws[j].source.Some? {
        forall a | a in Filter(raws) ensures a.source.Some? {
          var k :| 0 <= k < |Filter(raws)| && Filter(raws)[k] == a;
          assert a == raws[idx[k]];
        }
      } else {
        var j :| 0 <= j < |raws| && Keep(raws[j]) && raws[j].source.None?;
        var k := |Filter(raws[..j])|;
        assert Filter(raws)[k] in Filter(raws);
      }
    }
  }

  /**
   * On success the served list is the kept articles, in upstream order, each
   * mapped field by field: out[k] comes from raws[idx[k]], the positions idx
   * increase, and every kept position is among them.
   */
  lemma ProcessPicks(raws: seq<RawArticle>, localize: Localize) returns (idx: seq<nat>)
    requires Process(Some(raws), localize).Ok?
    ensures var out := Process(Some(raws), localize).value;
      |idx| == |out| && Increasing(idx) &&
      (forall k :: 0 <= k < |idx| ==>
        idx[k] < |raws| && Keep(raws[idx[k]]) && NormalisedFrom(out[k], raws[idx[k]], localize)) &&
      (forall j :: 0 <= j < |raws| && Keep(raws[j]) ==>
        |Filter(raws[..j])| < |idx| && idx[|Filter(raws[..j])|] == j)
  {
    idx := FilterPicks(raws);
  }

  /** An article that passes the filter, as seen in its normalised form. */
  predicate Clean(o: Article)
  {
    o.title != "" && o.description != "" && !MentionsExcluded(Lower(o.title), Lower(o.description))
  }

  /** Every article the pipeline produces has a non-empty title and description and no excluded word. */
  lemma ProcessOutputClean(articles: Option<seq<RawArticle>>, localize: Localize)
    requires Process(articles, localize).Ok?
    ensures forall o :: o in Process(articles, localize).value ==> Clean(o)
  {
    var out := Process(articles, localize).value;
    var kept := Filter(articles.value);
    forall o | o in out ensures Clean(o) {
      var k :| 0 <= k < |out| && out[k] == o;
      assert kept[k] in kept;
    }
  }
}
