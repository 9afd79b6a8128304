/** Authors, magazines and the articles that join them, held in memory.

    The three process-wide, append-only lists of the original
    (`Article.all`, `Author.all`, `Magazine.all`) are the three sequence
    fields of one explicit `Registry` object. Entities are objects, so the
    identity comparison `article.author == self` is reference equality. */
module ManyToMany {
  import opened Seqs

  datatype Option<T> = None | Some(value: T)

  /** Why a construction was refused; each is a `ValueError` in the original. */
  datatype Error = InvalidName | InvalidCategory | InvalidTitle

  datatype Result<T> = Ok(value: T) | Err(error: Error)

  predicate ValidAuthorName(name: string) { |name| > 0 }

  predicate ValidMagazineName(name: string) { 2 <= |name| <= 16 }

  predicate ValidCategory(category: string) { |category| > 0 }

  predicate ValidTitle(title: string) { 5 <= |title| <= 50 }

  /** An author's name is fixed at construction. */
  class Author {
    const name: string

    constructor (name: string)
      ensures this.name == name
    {
      this.name := name;
    }

    /** Assigning a name is silently ignored. */
    method SetName(value: string)
      ensures unchanged(this)
    {
    }

    /** The registered articles written by this author, in registry order. */
    function Articles(reg: Registry): (r: seq<Article>)
      reads reg, reg.articles
      ensures IsSubsequence(r, reg.articles)
      ensures forall i | 0 <= i < |r| :: r[i] in reg.articles && r[i].author == this
      ensures forall a | a in reg.articles && a.author == this :: a in r
    {
      WrittenBy(reg.articles, this)
    }

    /** The magazines this author has written for, each once. */
    function Magazines(reg: Registry): (r: set<Magazine>)
      reads reg, reg.articles
      ensures forall m | m in r :: PublishedIn(Articles(reg), m) != []
      ensures forall a | a in Articles(reg) :: a.magazine in r
      ensures r == {} <==> Articles(reg) == []
      ensures reg.Valid() ==> forall m :: m in r ==> m in reg.magazines
    {
      var arts := Articles(reg);
      assert arts != [] ==> arts[0] in arts;
      set a | a in arts :: a.magazine
    }

    /** Writes a new article for `magazine`; fails, registering nothing,
        when the title is not 5 to 50 characters long. */
    method AddArticle(reg: Registry, magazine: Magazine, title: string) returns (r: Result<Article>)
      requires reg.Valid() && this in reg.authors && magazine in reg.magazines
      modifies reg
      ensures reg.Valid()
      ensures reg.authors == old(reg.authors) && reg.magazines == old(reg.magazines)
      ensures r.Err? <==> !ValidTitle(title)
      ensures r.Err? ==> r.error == InvalidTitle && reg.articles == old(reg.articles)
      ensures r.Ok? ==> fresh(r.value) && r.value.author == this && r.value.magazine == magazine
                        && r.value.title == title && reg.articles == old(reg.articles) + [r.value]
      ensures r.Ok? ==> Articles(reg) == old(Articles(reg)) + [r.value]
      ensures r.Ok? ==> magazine.Articles(reg) == old(magazine.Articles(reg)) + [r.value]
    {
      r := reg.NewArticle(this, magazine, title);
      if r.Ok? {
        WrittenByAppend(old(reg.articles), r.value, this);
        PublishedInAppend(old(reg.articles), r.value, magazine);
      }
    }

    /** The categories of the magazines this author has written for, or
        `None` when there are none. */
    function TopicAreas(reg: Registry): (r: Option<set<string>>)
      requires reg.Valid()
      reads reg, reg.articles, reg.magazines
      ensures r.None? <==> Articles(reg) == []
      ensures r.Some? ==> forall a :: a in Articles(reg) ==> a.magazine.category in r.value
      ensures r.Some? ==> forall c | c in r.value :: exists a | a in Articles(reg) :: a.magazine.category == c
      ensures r.Some? ==> forall c :: c in r.value ==> ValidCategory(c)
    {
      var mags := Magazines(reg);
      if mags == {} then None else Some(set m | m in mags :: m.category)
    }
  }

  /** A magazine's name and category can be changed, but only to valid values. */
  class Magazine {
    var name: string
    var category: string

    ghost predicate Valid()
      reads this
    {
      ValidMagazineName(name) && ValidCategory(category)
    }

    constructor (name: string, category: string)
      ensures this.name == name && this.category == category
    {
      this.name := name;
      this.category := category;
    }

    /** Renames the magazine when `value` is 2 to 16 characters long and
        otherwise leaves everything as it was. */
    method SetName(value: string, ghost reg: Registry)
      requires reg.Valid() && this in reg.magazines
      modifies this`name
      ensures reg.Valid()
      ensures name == if ValidMagazineName(value) then value else old(name)
    {
      if ValidMagazineName(value) {
        name := value;
      }
    }

    /** Recategorises the magazine when `value` is non-empty and otherwise
        leaves everything as it was. */
    method SetCategory(value: string, ghost reg: Registry)
      requires reg.Valid() && this in reg.magazines
      modifies this`category
      ensures reg.Valid()
      ensures category == if ValidCategory(value) then value else old(category)
    {
      if ValidCategory(value) {
        category := value;
      }
    }

    /** The registered articles published in this magazine, in registry order. */
    function Articles(reg: Registry): (r: seq<Article>)
      reads reg, reg.articles
      ensures IsSubsequence(r, reg.articles)
      ensures forall i | 0 <= i < |r| :: r[i] in reg.articles && r[i].magazine == this
      ensures forall a | a in reg.articles && a.magazine == this :: a in r
    {
      PublishedIn(reg.articles, this)
    }

    /** The number of articles published in this magazine. */
    function ArticleCount(reg: Registry): nat
      reads reg, reg.articles
    {
      |Articles(reg)|
    }

    /** The authors who have written for this magazine, each once. */
    function Contributors(reg: Registry): (r: set<Author>)
      reads reg, reg.articles
      ensures forall au | au in r :: WrittenBy(Articles(reg), au) != []
      ensures forall a | a in Articles(reg) :: a.author in r
      ensures r == {} <==> Articles(reg) == []
      ensures reg.Valid() ==> forall au :: au in r ==> au in reg.authors
    {
      var arts := Articles(reg);
      assert arts != [] ==> arts[0] in arts;
      set a | a in arts :: a.author
    }

    /** The titles of this magazine's articles, one per article in registry
        order, or `None` when it has none. */
    function ArticleTitles(reg: Registry): (r: Option<seq<string>>)
      reads reg, reg.articles
      ensures r.None? <==> Articles(reg) == []
      ensures r.Some? ==> |r.value| == |Articles(reg)|
      ensures r.Some? ==> forall i :: 0 <= i < |r.value| ==> r.value[i] == Articles(reg)[i].title
      ensures r.Some? && reg.Valid() ==> forall t :: t in r.value ==> ValidTitle(t)
    {
      var arts := Articles(reg);
      var titles := seq(|arts|, i requires 0 <= i < |arts| => arts[i].title);
      if titles == [] then None else Some(titles)
    }

    /** The contributors with more than two articles in this magazine, or
        `None` when no contributor has that many. */
    function ContributingAuthors(reg: Registry): (r: Option<set<Author>>)
      reads reg, reg.articles
      ensures r.None? <==> forall a | a in Articles(reg) :: |WrittenBy(Articles(reg), a.author)| <= 2
      ensures r.Some? ==> forall au | au in r.value :: |WrittenBy(Articles(reg), au)| > 2
      ensures r.Some? ==> forall a | a in Articles(reg) && |WrittenBy(Articles(reg), a.author)| > 2 :: a.author in r.value
    {
      var authors := set au | au in Contributors(reg) && |PublishedIn(au.Articles(reg), this)| > 2;
      ContributingSet(reg, this, authors);
      if authors == {} then None else Some(authors)
    }

    /** A magazine with the most articles, the first such in registry order,
        or `None` when no article exists at all. */
    static function TopPublisher(reg: Registry): (r: Option<Magazine>)
      requires reg.Valid()
      reads reg, reg.articles, reg.magazines
      ensures r.None? <==> reg.articles == []
      ensures r.Some? ==> r.value in reg.magazines && r.value.ArticleCount(reg) >= 1
      ensures r.Some? ==> forall m :: m in reg.magazines ==> m.ArticleCount(reg) <= r.value.ArticleCount(reg)
      ensures r.Some? ==> exists k :: 0 <= k < |reg.magazines| && reg.magazines[k] == r.value
                            && forall j :: 0 <= j < k ==> reg.magazines[j].ArticleCount(reg) < r.value.ArticleCount(reg)
    {
      if reg.articles == [] then None
      else
        var first := reg.articles[0];
        assert first in first.magazine.Articles(reg);
        var k := BusiestIndex(reg.magazines, reg);
        Some(reg.magazines[k])
    }
  }

  /** An article joins one author and one magazine; its title is fixed. */
  class Article {
    var author: Author
    var magazine: Magazine
    const title: string

    constructor (author: Author, magazine: Magazine, title: string)
      ensures this.author == author && this.magazine == magazine && this.title == title
    {
      this.author := author;
      this.magazine := magazine;
      this.title := title;
    }

    /** Reassigns the author; nothing else changes. */
    method SetAuthor(value: Author, ghost reg: Registry)
      requires reg.Valid() && this in reg.articles && value in reg.authors
      modifies this`author
      ensures reg.Valid()
      ensures author == value
    {
      author := value;
    }

    /** Moves the article to another magazine; nothing else changes. */
    method SetMagazine(value: Magazine, ghost reg: Registry)
      requires reg.Valid() && this in reg.articles && value in reg.magazines
      modifies this`magazine
      ensures reg.Valid()
      ensures magazine == value
    {
      magazine := value;
    }

    /** Assigning a title is silently ignored. */
    method SetTitle(value: string)
      ensures unchanged(this)
    {
    }
  }

  /** Everything ever constructed successfully, in order of construction. */
  class Registry {
    var authors: seq<Author>
    var magazines: seq<Magazine>
    var articles: seq<Article>

    /** Each object is registered once, satisfies the checks it was
        constructed under, and articles only refer to registered objects. */
    ghost predicate Valid()
      reads this, magazines, articles
    {
      && Distinct(authors) && Distinct(magazines) && Distinct(articles)
      && (forall au :: au in authors ==> ValidAuthorName(au.name))
      && (forall m :: m in magazines ==> m.Valid())
      && (forall a :: a in articles ==> ValidTitle(a.title) && a.author in authors && a.magazine in magazines)
    }

    constructor ()
      ensures Valid()
      ensures authors == [] && magazines == [] && articles == []
    {
      authors, magazines, articles := [], [], [];
    }

    /** `Author(name)`: fails on an empty name, otherwise registers a new author. */
    method NewAuthor(name: string) returns (r: Result<Author>)
      requires Valid()
      modifies this
      ensures Valid()
      ensures magazines == old(magazines) && articles == old(articles)
      ensures r.Err? <==> !ValidAuthorName(name)
      ensures r.Err? ==> r.error == InvalidName && authors == old(authors)
      ensures r.Ok? ==> fresh(r.value) && r.value.name == name && authors == old(authors) + [r.value]
    {
      if !ValidAuthorName(name) {
        return Err(InvalidName);
      }
      var au := new Author(name);
      authors := authors + [au];
      r := Ok(au);
    }

    /** `Magazine(name, category)`: the name is checked first, then the
        category; on success a new magazine is registered. */
    method NewMagazine(name: string, category: string) returns (r: Result<Magazine>)
      requires Valid()
      modifies this
      ensures Valid()
      ensures authors == old(authors) && articles == old(articles)
      ensures r.Err? <==> !ValidMagazineName(name) || !ValidCategory(category)
      ensures r.Err? ==> r.error == (if ValidMagazineName(name) then InvalidCategory else InvalidName)
      ensures r.Err? ==> magazines == old(magazines)
      ensures r.Ok? ==> fresh(r.value) && r.value.name == name && r.value.category == category
                        && magazines == old(magazines) + [r.value]
    {
      if !ValidMagazineName(name) {
        return Err(InvalidName);
      }
      if !ValidCategory(category) {
        return Err(InvalidCategory);
      }
      var m := new Magazine(name, category);
      magazines := magazines + [m];
      r := Ok(m);
    }

    /** `Article(author, magazine, title)`: fails when the title is not 5 to
        50 characters long, otherwise registers a new article at the end. */
    method NewArticle(author: Author, magazine: Magazine, title: string) returns (r: Result<Article>)
      requires Valid() && author in authors && magazine in magazines
      modifies this
      ensures Valid()
      ensures authors == old(authors) && magazines == old(magazines)
      ensures r.Err? <==> !ValidTitle(title)
      ensures r.Err? ==> r.error == InvalidTitle && articles == old(articles)
      ensures r.Ok? ==> fresh(r.value) && r.value.author == author && r.value.magazine == magazine
                        && r.value.title == title && articles == old(articles) + [r.value]
    {
      if !ValidTitle(title) {
        return Err(InvalidTitle);
      }
      var a := new Article(author, magazine, title);
      articles := articles + [a];
      r := Ok(a);
    }
  }

  /** The articles of `arts` whose author is `au`, in order, each as many
      times as it occurs in `arts` (see `SelectionMultiplicity`). */
  function WrittenBy(arts: seq<Article>, au: Author): (r: seq<Article>)
    reads arts
    ensures IsSubsequence(r, arts)
    ensures forall i | 0 <= i < |r| :: r[i] in arts && r[i].author == au
    ensures forall a | a in arts && a.author == au :: a in r
    decreases |arts|
  {
    if arts == [] then []
    else if arts[0].author == au then [arts[0]] + WrittenBy(arts[1..], au)
    else WrittenBy(arts[1..], au)
  }

  /** The articles of `arts` whose magazine is `m`, in order, each as many
      times as it occurs in `arts` (see `SelectionMultiplicity`). */
  function PublishedIn(arts: seq<Article>, m: Magazine): (r: seq<Article>)
    reads arts
    ensures IsSubsequence(r, arts)
    ensures forall i | 0 <= i < |r| :: r[i] in arts && r[i].magazine == m
    ensures forall a | a in arts && a.magazine == m :: a in r
    decreases |arts|
  {
    if arts == [] then []
    else if arts[0].magazine == m then [arts[0]] + PublishedIn(arts[1..], m)
    else PublishedIn(arts[1..], m)
  }

  /** The selections keep every chosen article exactly as often as it
      occurs in `arts`, and drop every other one entirely. Together with the
      filters' subsequence and membership contracts this fixes their results
      even when `arts` repeats an article. */
  lemma {:induction false} SelectionMultiplicity(arts: seq<Article>, au: Author, m: Magazine)
    ensures forall a | a in arts :: multiset(WrittenBy(arts, au))[a] == if a.author == au then multiset(arts)[a] else 0
    ensures forall a | a in arts :: multiset(PublishedIn(arts, m))[a] == if a.magazine == m then multiset(arts)[a] else 0
    decreases |arts|
  {
    if arts != [] {
      SelectionMultiplicity(arts[1..], au, m);
      assert arts == [arts[0]] + arts[1..];
      assert multiset(arts) == multiset{arts[0]} + multiset(arts[1..]);
      forall a | a in arts
        ensures multiset(WrittenBy(arts, au))[a] == if a.author == au then multiset(arts)[a] else 0
        ensures multiset(PublishedIn(arts, m))[a] == if a.magazine == m then multiset(arts)[a] else 0
      {
        if a !in arts[1..] {
          assert multiset(arts[1..])[a] == 0;
          assert multiset(WrittenBy(arts[1..], au))[a] == 0 by {
            SubsequenceElements(WrittenBy(arts[1..], au), arts[1..]);
          }
          assert multiset(PublishedIn(arts[1..], m))[a] == 0 by {
            SubsequenceElements(PublishedIn(arts[1..], m), arts[1..]);
          }
        }
      }
    }
  }

  /** Registering one more article extends the list of its author's
      articles by that article and leaves every other author's list as it was. */
  lemma {:induction false} WrittenByAppend(arts: seq<Article>, a: Article, au: Author)
    ensures WrittenBy(arts + [a], au) == WrittenBy(arts, au) + (if a.author == au then [a] else [])
    decreases |arts|
  {
    if arts == [] {
      assert arts + [a] == [a];
      assert [a][1..] == [];
    } else {
      assert (arts + [a])[1..] == arts[1..] + [a];
      WrittenByAppend(arts[1..], a, au);
    }
  }

  /** Registering one more article extends the list of its magazine's
      articles by that article and leaves every other magazine's list as it was. */
  lemma {:induction false} PublishedInAppend(arts: seq<Article>, a: Article, m: Magazine)
    ensures PublishedIn(arts + [a], m) == PublishedIn(arts, m) + (if a.magazine == m then [a] else [])
    decreases |arts|
  {
    if arts == [] {
      assert arts + [a] == [a];
      assert [a][1..] == [];
    } else {
      assert (arts + [a])[1..] == arts[1..] + [a];
      PublishedInAppend(arts[1..], a, m);
    }
  }

  /** Selecting by author then by magazine gives the same articles, in the
      same order, as selecting by magazine then by author. */
  lemma {:induction false} SelectionsCommute(arts: seq<Article>, au: Author, m: Magazine)
    ensures PublishedIn(WrittenBy(arts, au), m) == WrittenBy(PublishedIn(arts, m), au)
    decreases |arts|
  {
    if arts != [] {
      SelectionsCommute(arts[1..], au, m);
    }
  }

  /** The set `contributing_authors` builds (contributors whose own
      articles include more than two in `m`) is exactly the set of authors
      of more than two of `m`'s articles. */
  lemma ContributingSet(reg: Registry, m: Magazine, authors: set<Author>)
    requires authors == set au | au in m.Contributors(reg) && |PublishedIn(au.Articles(reg), m)| > 2
    ensures forall au | au in authors :: |WrittenBy(m.Articles(reg), au)| > 2
    ensures forall a | a in m.Articles(reg) && |WrittenBy(m.Articles(reg), a.author)| > 2 :: a.author in authors
    ensures authors == {} <==> forall a | a in m.Articles(reg) :: |WrittenBy(m.Articles(reg), a.author)| <= 2
  {
    var arts := m.Articles(reg);
    forall au: Author
      ensures PublishedIn(au.Articles(reg), m) == WrittenBy(arts, au)
    {
      SelectionsCommute(reg.articles, au, m);
    }
    if authors != {} {
      var au :| au in authors;
      var w := WrittenBy(arts, au);
      assert w[0] in arts && w[0].author == au;
    }
  }

  /** An author is among a magazine's contributing authors exactly when
      more than two of the magazine's articles are theirs: three qualify,
      two do not. This follows from the contract of `ContributingAuthors`. */
  lemma ContributingThreshold(reg: Registry, m: Magazine, au: Author)
    ensures |WrittenBy(m.Articles(reg), au)| > 2
            <==> m.ContributingAuthors(reg).Some? && au in m.ContributingAuthors(reg).value
  {
  }

  /** A magazine with at most two articles has no contributing authors. */
  lemma FewArticlesNoContributors(reg: Registry, m: Magazine)
    requires |m.Articles(reg)| <= 2
    ensures m.ContributingAuthors(reg).None?
  {
    var arts := m.Articles(reg);
    forall a | a in arts
      ensures |WrittenBy(arts, a.author)| <= 2
    {
      SubsequenceElements(WrittenBy(arts, a.author), arts);
    }
  }

  /** When every one of a magazine's more than two articles is by the same
      author, that author is one of its contributing authors. */
  lemma SoleAuthorContributes(reg: Registry, m: Magazine, au: Author)
    requires |m.Articles(reg)| > 2
    requires forall a | a in m.Articles(reg) :: a.author == au
    ensures m.ContributingAuthors(reg).Some? && au in m.ContributingAuthors(reg).value
  {
    var arts := m.Articles(reg);
    WrittenByAll(arts, au);
    ContributingThreshold(reg, m, au);
  }

  /** Selecting by the magazine every article appeared in keeps them all. */
  lemma {:induction false} PublishedInAll(arts: seq<Article>, m: Magazine)
    requires forall a | a in arts :: a.magazine == m
    ensures PublishedIn(arts, m) == arts
    decreases |arts|
  {
    if arts != [] {
      PublishedInAll(arts[1..], m);
    }
  }

  /** Selecting by an author that wrote every article keeps them all. */
  lemma {:induction false} WrittenByAll(arts: seq<Article>, au: Author)
    requires forall a | a in arts :: a.author == au
    ensures WrittenBy(arts, au) == arts
    decreases |arts|
  {
    if arts != [] {
      WrittenByAll(arts[1..], au);
    }
  }

  /** The index of the first magazine of `mags` with the most articles: a
      later magazine replaces the one found so far only when it has strictly
      more articles. */
  function BusiestIndex(mags: seq<Magazine>, reg: Registry): (k: nat)
    requires |mags| > 0
    reads reg, reg.articles
    ensures k < |mags|
    ensures forall j :: 0 <= j < |mags| ==> mags[j].ArticleCount(reg) <= mags[k].ArticleCount(reg)
    ensures forall j :: 0 <= j < k ==> mags[j].ArticleCount(reg) < mags[k].ArticleCount(reg)
    decreases |mags|
  {
    if |mags| == 1 then 0
    else
      var k := BusiestIndex(mags[..|mags| - 1], reg);
      if mags[|mags| - 1].ArticleCount(reg) > mags[k].ArticleCount(reg) then |mags| - 1 else k
  }

  /** Under a consistent registry, the article lists `articles()` returns
      have no repeats. */
  lemma ArticlesDistinct(reg: Registry, au: Author, m: Magazine)
    requires reg.Valid()
    ensures Distinct(au.Articles(reg)) && Distinct(m.Articles(reg))
  {
    SubsequenceDistinct(au.Articles(reg), reg.articles);
    SubsequenceDistinct(m.Articles(reg), reg.articles);
  }

  /** How many times `m` occurs in `mags`. */
  function Occurrences(mags: seq<Magazine>, m: Magazine): nat
  {
    if mags == [] then 0 else (if mags[0] == m then 1 else 0) + Occurrences(mags[1..], m)
  }

  /** The article counts of `mags` added up, counting within `arts`. */
  function CountSum(mags: seq<Magazine>, arts: seq<Article>): nat
    reads arts
  {
    if mags == [] then 0 else |PublishedIn(arts, mags[0])| + CountSum(mags[1..], arts)
  }

  lemma {:induction false} OccurrencesOfDistinct(mags: seq<Magazine>, m: Magazine)
    requires Distinct(mags)
    ensures Occurrences(mags, m) == if m in mags then 1 else 0
  {
    if mags != [] {
      assert Distinct(mags[1..]) by {
        forall i, j | 0 <= i < j < |mags[1..]| ensures mags[1..][i] != mags[1..][j] {
          assert mags[1..][i] == mags[i + 1] && mags[1..][j] == mags[j + 1];
        }
      }
      OccurrencesOfDistinct(mags[1..], m);
      if mags[0] == m {
        assert m !in mags[1..] by {
          forall i | 0 <= i < |mags[1..]| ensures mags[1..][i] != m {
            assert mags[1..][i] == mags[i + 1];
          }
        }
      } else {
        assert m in mags <==> m in mags[1..];
      }
    }
  }

  /** Dropping the first article lowers the sum by one for each time its
      magazine occurs among `mags`. */
  lemma {:induction false} CountSumStep(mags: seq<Magazine>, arts: seq<Article>)
    requires arts != []
    ensures CountSum(mags, arts) == Occurrences(mags, arts[0].magazine) + CountSum(mags, arts[1..])
  {
    if mags != [] {
      CountSumStep(mags[1..], arts);
    }
  }

  lemma {:induction false} CountSumCovers(mags: seq<Magazine>, arts: seq<Article>)
    requires Distinct(mags)
    requires forall i | 0 <= i < |arts| :: arts[i].magazine in mags
    ensures CountSum(mags, arts) == |arts|
    decreases |arts|
  {
    if arts == [] {
      CountSumEmpty(mags);
    } else {
      CountSumStep(mags, arts);
      OccurrencesOfDistinct(mags, arts[0].magazine);
      assert forall i | 0 <= i < |arts[1..]| :: arts[1..][i] == arts[i + 1];
      CountSumCovers(mags, arts[1..]);
    }
  }

  lemma {:induction false} CountSumEmpty(mags: seq<Magazine>)
    ensures CountSum(mags, []) == 0
  {
    if mags != [] {
      CountSumEmpty(mags[1..]);
    }
  }

  /** Every registered article is listed under exactly one registered
      magazine: the magazines' article counts add up to the number of
      registered articles. */
  lemma ArticleCountsPartition(reg: Registry)
    requires reg.Valid()
    ensures CountSum(reg.magazines, reg.articles) == |reg.articles|
  {
    assert forall i | 0 <= i < |reg.articles| :: reg.articles[i] in reg.articles;
    CountSumCovers(reg.magazines, reg.articles);
  }

  /** An author who wrote all three of a magazine's articles is one of its
      contributing authors. */
  method ThreeArticlesScenario()
  {
    var reg := new Registry();
    var r1 := reg.NewAuthor("Ada");
    var r2 := reg.NewMagazine("Tech", "Science");
    assert r1.Ok? && r2.Ok?;
    var ada, tech := r1.value, r2.value;
    var first := reg.NewArticle(ada, tech, "Engines");
    assert first.Ok? && |reg.articles| == 1;
    assert forall a | a in reg.articles :: a.author == ada && a.magazine == tech;
    var second := reg.NewArticle(ada, tech, "Looms and cards");
    assert second.Ok? && |reg.articles| == 2;
    assert forall a | a in reg.articles :: a.author == ada && a.magazine == tech;
    var third := reg.NewArticle(ada, tech, "Notes on notes");
    assert third.Ok? && |reg.articles| == 3;
    assert forall a | a in reg.articles :: a.author == ada && a.magazine == tech;
    PublishedInAll(reg.articles, tech);
    SoleAuthorContributes(reg, tech, ada);
  }

  /** An author with only two articles in a magazine is not one of its
      contributing authors. */
  method TwoArticlesScenario()
  {
    var reg := new Registry();
    var r1 := reg.NewAuthor("Ada");
    var r2 := reg.NewMagazine("Tech", "Science");
    assert r1.Ok? && r2.Ok?;
    var ada, tech := r1.value, r2.value;
    var first := ada.AddArticle(reg, tech, "Engines");
    assert first.Ok? && |reg.articles| == 1;
    assert forall a | a in reg.articles :: a.author == ada && a.magazine == tech;
    var second := ada.AddArticle(reg, tech, "Looms and cards");
    assert second.Ok? && |reg.articles| == 2;
    assert forall a | a in reg.articles :: a.author == ada && a.magazine == tech;
    PublishedInAll(reg.articles, tech);
    FewArticlesNoContributors(reg, tech);
  }

  /** Before any article exists there is no top publisher, and an author
      without articles has no topic areas. */
  method NoArticlesScenario()
  {
    var reg := new Registry();
    var r1 := reg.NewAuthor("Ada");
    assert r1.Ok?;
    var r2 := reg.NewMagazine("Tech", "Science");
    assert r2.Ok?;
    var top := Magazine.TopPublisher(reg);
    assert top.None?;
    var topics := r1.value.TopicAreas(reg);
    assert topics.None?;
    var r3 := reg.NewAuthor("");
    assert r3 == Err(InvalidName) && reg.authors == [r1.value];
    var r4 := r1.value.AddArticle(reg, r2.value, "New");
    assert r4 == Err(InvalidTitle) && reg.articles == [];
  }
}
