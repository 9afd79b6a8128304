# Authors, magazines and articles: a Dafny model

This project models the in-memory many-to-many layer of
`lib/classes/many_to_many.py`. It has three entity kinds:

- An **Author** has a name that is fixed once it is constructed.
- A **Magazine** has a name of 2 to 16 characters and a non-empty category. Both can be changed through validating setters.
- An **Article** joins one author and one magazine. It has a title of 5 to 50 characters that cannot be changed. Its author and magazine can be reassigned.

Each kind has a process-wide list of every instance ever constructed
(`Article.all`, `Author.all`, `Magazine.all`). These lists are only ever
appended to. The derived queries read the article list:

- `articles` filters it.
- `magazines`, `contributors` and `topic_areas` de-duplicate.
- `contributing_authors` selects by a threshold.
- `top_publisher` picks a maximum.

Files:

- `seqs.dfy` (module `Seqs`): two predicates. `Distinct` means no element occurs twice. `IsSubsequence` means the same elements in the same order, with some deleted. It also holds their lemmas.
- `many_to_many.dfy` (module `ManyToMany`): the model itself.

How the model is built:

- **One registry object.** The three class-level lists are the sequence fields `authors`, `magazines` and `articles` of one `Registry` object. Its predicate `Valid()` is the invariant that the original keeps implicitly:
  - each object is registered once;
  - each object meets the checks it was constructed under;
  - articles refer only to registered authors and magazines.
- **Identity.** Entities are Dafny classes. The original's identity comparison (`article.author == self`) is therefore reference equality.
- **Fields.** Fields that the original never changes after construction (`Author.name`, `Article.title`) are `const`. Fields that setters change (`Article.author`, `Article.magazine`, `Magazine.name`, `Magazine.category`) are `var`.
- **Constructors.** A Python constructor checks its arguments, raises `ValueError` or registers the new object. It is modelled by `Registry.NewAuthor`, `Registry.NewMagazine` and `Registry.NewArticle`. Each returns a `Result`: either the new object, or an `Error` naming the check that failed. When two checks fail, the error is the one the original checks first. The plain Dafny constructors of the entity classes only set fields.
- **Queries.** The queries are functions of the registry. Their `reads` clauses name the registry and the objects in it. Lists that the original builds through a Python `set` are Dafny `set`s, because their order is unspecified.
- **Setters.** The four setters that can change something (`Article.SetAuthor`, `Article.SetMagazine`, `Magazine.SetName`, `Magazine.SetCategory`) are methods whose `modifies` clause names the one field they may change. Each takes the registry as a ghost parameter, so that it can promise that `Valid()` still holds afterwards. `Author.SetName` and `Article.SetTitle` change nothing, so they modify nothing and take no registry.

## Model

| member | source | states |
|---|---|---|
| `ManyToMany.Registry.constructor` | lib/classes/many_to_many.py:1-2 | the three registries start empty and consistent |
| `ManyToMany.Registry.NewAuthor` | lib/classes/many_to_many.py:48-52 | fails exactly when the name is empty, registering nothing; otherwise appends exactly one fresh author with that name to the author registry, leaves the other registries alone and keeps the registry consistent |
| `ManyToMany.Registry.NewMagazine` | lib/classes/many_to_many.py:83-91 | fails exactly when the name is not 2 to 16 characters or the category is empty, reporting the name first; otherwise appends exactly one fresh magazine to the magazine registry; earlier entries never change |
| `ManyToMany.Registry.NewArticle` | lib/classes/many_to_many.py:4-15 | fails exactly when the title is not 5 to 50 characters, leaving the article registry unchanged; otherwise the registry grows by exactly the new article, at the end, with the given author, magazine and title |
| `ManyToMany.Author.constructor` | lib/classes/many_to_many.py:51 | the author holds the given name |
| `ManyToMany.Magazine.constructor` | lib/classes/many_to_many.py:89-90 | the magazine holds the given name and category |
| `ManyToMany.Article.constructor` | lib/classes/many_to_many.py:12-14 | the article holds the given author, magazine and title |
| `ManyToMany.Author.SetName` | lib/classes/many_to_many.py:58-61 | assigning an author's name changes nothing |
| `ManyToMany.Article.SetTitle` | lib/classes/many_to_many.py:39-42 | assigning an article's title changes nothing |
| `ManyToMany.Article.SetAuthor` | lib/classes/many_to_many.py:21-24 | the article's author becomes the new one; no other field of any object changes; the registry stays consistent |
| `ManyToMany.Article.SetMagazine` | lib/classes/many_to_many.py:30-33 | the article's magazine becomes the new one; no other field of any object changes; the registry stays consistent |
| `ManyToMany.Magazine.SetName` | lib/classes/many_to_many.py:97-100 | the name changes exactly when the new one is 2 to 16 characters and is otherwise kept; nothing else changes, so the registry's invariants survive any sequence of calls |
| `ManyToMany.Magazine.SetCategory` | lib/classes/many_to_many.py:106-109 | the category changes exactly when the new one is non-empty and is otherwise kept; the registry stays consistent |
| `ManyToMany.Author.Articles` | lib/classes/many_to_many.py:63-64 | exactly the registered articles whose author is this one (both directions), as a subsequence of the registry, so in registry order |
| `ManyToMany.Magazine.Articles` | lib/classes/many_to_many.py:111-112 | exactly the registered articles whose magazine is this one (both directions), in registry order |
| `ManyToMany.WrittenBy` | lib/classes/many_to_many.py:64 | selecting by author keeps exactly the matching articles and their order |
| `ManyToMany.PublishedIn` | lib/classes/many_to_many.py:112 | selecting by magazine keeps exactly the matching articles and their order |
| `ManyToMany.SelectionMultiplicity` | lib/classes/many_to_many.py:64 | selecting by author (and likewise by magazine, line 112) keeps every matching article as many times as the input holds it and drops every other article entirely |
| `ManyToMany.WrittenByAll` | lib/classes/many_to_many.py:64 | when every article is by the author, selecting by that author keeps the whole list |
| `ManyToMany.PublishedInAll` | lib/classes/many_to_many.py:112 | when every article is in the magazine, selecting by that magazine keeps the whole list |
| `ManyToMany.ArticlesDistinct` | lib/classes/many_to_many.py:63-64 | under a consistent registry, neither `articles()` list repeats an article |
| `ManyToMany.WrittenByAppend` | lib/classes/many_to_many.py:15 | registering an article extends only its own author's article list, by that article at the end |
| `ManyToMany.PublishedInAppend` | lib/classes/many_to_many.py:15 | registering an article extends only its own magazine's article list, by that article at the end |
| `ManyToMany.Author.AddArticle` | lib/classes/many_to_many.py:69-71 | fails exactly on a title outside 5 to 50 characters; on success the new article is by this author and appears at the end of both this author's and the magazine's article lists |
| `ManyToMany.Author.Magazines` | lib/classes/many_to_many.py:66-67 | every magazine of one of the author's articles is in the set, and only those; empty exactly when the author has no articles; all registered when the registry is consistent |
| `ManyToMany.Author.TopicAreas` | lib/classes/many_to_many.py:73-77 | `None` exactly when the author has no articles; otherwise the categories of the author's magazines, all of them and nothing else, each non-empty |
| `ManyToMany.Magazine.Contributors` | lib/classes/many_to_many.py:114-115 | the authors of this magazine's articles and no one else; empty exactly when the magazine has no articles; all registered when the registry is consistent |
| `ManyToMany.Magazine.ArticleTitles` | lib/classes/many_to_many.py:117-119 | `None` exactly when the magazine has no articles; otherwise one title per article, in the same order, each 5 to 50 characters in a consistent registry |
| `ManyToMany.SelectionsCommute` | lib/classes/many_to_many.py:124 | an author's articles in a magazine are the same list as the magazine's articles by that author |
| `ManyToMany.ContributingSet` | lib/classes/many_to_many.py:121-125 | the set built from contributors whose own articles include more than two in the magazine is exactly the set of authors of more than two of its articles, and it is empty exactly when no author reaches three |
| `ManyToMany.Magazine.ContributingAuthors` | lib/classes/many_to_many.py:121-126 | only authors with strictly more than two articles in this magazine, every such author, and `None` exactly when none qualifies |
| `ManyToMany.ContributingThreshold` | lib/classes/many_to_many.py:121-126 | an author is listed exactly when more than two of the magazine's articles are theirs, so three articles qualify and two do not |
| `ManyToMany.FewArticlesNoContributors` | lib/classes/many_to_many.py:121-126 | a magazine with at most two articles has no contributing authors |
| `ManyToMany.SoleAuthorContributes` | lib/classes/many_to_many.py:121-126 | an author who wrote all of a magazine's more than two articles is one of its contributing authors |
| `ManyToMany.BusiestIndex` | lib/classes/many_to_many.py:133 | the index of a magazine with a count at least every other's, and the first such one in list order |
| `ManyToMany.Magazine.TopPublisher` | lib/classes/many_to_many.py:128-133 | `None` exactly when no article is registered; otherwise a registered magazine with at least one article whose count is at least every registered magazine's, the first such in registry order |
| `ManyToMany.ArticleCountsPartition` | lib/classes/many_to_many.py:132 | in a consistent registry the registered magazines' article counts add up to the number of registered articles, so each article is counted under exactly one magazine |

## Left out

- The `isinstance` checks (lines 5-8, 23, 32, 70, 84, 86, 99, 108) are not modelled. Static types make them always true. As a result, the `TypeError` branches of `Article.__init__` and the silent `None` that `add_article` returns for a non-`Magazine` or non-`str` argument do not exist in the model.
- Exception classes and messages are not modelled. A failed construction is an `Err` naming the check that failed, not a raised `ValueError`.
- The read-only properties (`name`, `category`, `author`, `magazine`, `title`) are not separate members. They are the fields themselves.
- Strings are sequences of Dafny `char`s, which are Unicode scalar values, so `|s|` agrees with Python's `len` on every string both can hold. A Python `str` can also hold lone surrogate code points (U+D800 to U+DFFF), which a Dafny `string` cannot, so names, categories and titles containing them are outside the model.
- `ManyToMany.Author.Magazines`, `ManyToMany.Magazine.Contributors`, `ManyToMany.Author.TopicAreas` and `ManyToMany.Magazine.ContributingAuthors` return sets, not lists. The original builds these lists from a Python `set`, so their order is unspecified.
- `ManyToMany.Magazine.TopPublisher` chooses the first maximum in registry order. CPython's `max` picks that one, but the original does not document a tie-break.
- `ManyToMany.Magazine.TopPublisher` requires a consistent registry. In the original, an empty `Magazine.all` together with a non-empty `Article.all` would make `max` raise. That state cannot arise, because every article's magazine is registered.
- `ManyToMany.Article.SetAuthor`, `ManyToMany.Article.SetMagazine`, `ManyToMany.Magazine.SetName`, `ManyToMany.Magazine.SetCategory`, `ManyToMany.Registry.NewArticle` and `ManyToMany.Author.AddArticle` require a consistent registry and, where they take an author or a magazine, one that is registered. `ManyToMany.Author.TopicAreas` requires a consistent registry, because it reads the categories of registered magazines. The original needs no such checks, because every successfully constructed object registers itself and every state it can reach is consistent. Dafny cannot express that of every object in the heap, so the preconditions state it.
- `ManyToMany.NoArticlesScenario`, `ManyToMany.TwoArticlesScenario` and `ManyToMany.ThreeArticlesScenario` are clients that apply the contracts to concrete values: no top publisher and no topic areas before any article exists, two articles by one author in a magazine not enough to make that author a contributing author, three enough. They model no operation of their own.
