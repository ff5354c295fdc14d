# Authors, magazines and articles: a verified Dafny model

This project models `lib/classes/many_to_many.py`, a small in-memory
many-to-many object model. It has three validated entity classes:

- an `Author` with an immutable, non-empty name and an append-only list of
  articles;
- a `Magazine` with a name of 2 to 16 characters and a non-empty category,
  both re-validated on every write, and an append-only list of articles;
- an `Article`, the join record. It carries an immutable title of 5 to 50
  characters and reassignable references to one author and one magazine.

Creating an article appends it to its author's list, to its magazine's list
and to the registry of all articles, in that order. The derived queries are
computed on demand from the lists:

- `magazines` and `topic_areas` on the author;
- `contributors`, `article_titles` and `contributing_authors` on the
  magazine;
- the class-level `top_publisher`.

Each query goes through each article's *current* `author` or `magazine`
reference. After a setter re-points an article, the queries follow the new
reference, while list membership keeps the linkage made at creation.

Files:

- `wrappers.dfy`: `Option` stands for the source's `None` results.
  `Result` and `Outcome` stand for operations that succeed or raise.
- `counting.dfy`: module `Counting`. It holds an occurrence count with its
  link to Dafny multisets (the role of `collections.Counter`), and the
  first-maximum index that `max(..., key=...)` selects.
- `many_to_many.dfy`: module `ManyToMany`. It holds the classes `Registry`,
  `Article`, `Author` and `Magazine`, and the `Error` datatype for the
  validation failures.
- `scenarios.dfy`: module `Scenarios`. It holds client methods that rely on
  the contracts only. Each one walks through one concrete situation: a fresh
  author's topic areas, the title bounds 4/5/51, the magazine setters, and
  reassigning an article's author or magazine. Lemmas beside them state the
  topic areas of an author with one article, the contributing authors of a
  magazine whose articles are by a, a, a, b, b, and the top publisher of `[]`
  and of two magazines.

Modelling choices:

- A validating constructor becomes a static `New` method. It returns
  `Success(object)` or `Failure(error)`, and on failure nothing is
  allocated or appended.
- The anonymous constructors (and `Article.Link`) only allocate. They
  require valid arguments.
- The class attribute `Article.all` becomes an explicit `Registry` object
  passed to `Article.New`, because Dafny has no mutable statics.
- `Author.name` and `Article.title` are `const`, because the source never
  changes them after construction.
- The setters are methods. The magazine setters return `Pass` or
  `Fail(error)`.
- Results that the source builds with `list(set(...))` or from a `Counter`
  are Dafny sets.

## Model

| member | source | states |
|---|---|---|
| `ManyToMany.Registry.constructor` | lib/classes/many_to_many.py:4 | the registry of all articles starts empty |
| `ManyToMany.Article.Link` | lib/classes/many_to_many.py:13-15 | a new article holds the given author, magazine and (valid) title |
| `ManyToMany.Article.New` | lib/classes/many_to_many.py:6-18 | succeeds iff the title has 5 to 50 characters; on failure the error is `InvalidTitle` and the author, magazine and registry are unchanged; on success a fresh article is appended exactly once, at the tail, to the author's list, the magazine's list and the registry, in each case not present before, and nothing else is modified; the author's magazines gain exactly this magazine and the magazine's contributors gain exactly this author |
| `ManyToMany.Article.SetAuthor` | lib/classes/many_to_many.py:28-32 | only the article's author reference changes; its magazine is kept and no article list is modified |
| `ManyToMany.Article.SetMagazine` | lib/classes/many_to_many.py:38-42 | only the article's magazine reference changes; its author is kept and no article list is modified |
| `ManyToMany.Author.constructor` | lib/classes/many_to_many.py:49-50 | a valid author with the given name and no articles |
| `ManyToMany.Author.New` | lib/classes/many_to_many.py:46-50 | succeeds iff the name is non-empty, else fails with `InvalidAuthorName`; on success the author is fresh, has that name and no articles |
| `ManyToMany.Author.SetName` | lib/classes/many_to_many.py:75-78 | renaming always fails with `NameImmutable`; the method modifies nothing and the name is a constant |
| `ManyToMany.Author.Magazines` | lib/classes/many_to_many.py:60-62 | exactly the magazines that some article of the author currently references, each once |
| `ManyToMany.Author.TopicAreas` | lib/classes/many_to_many.py:67-73 | `None` exactly when the author has no articles; otherwise exactly the categories of the magazines the author's articles currently reference |
| `ManyToMany.Author.AddArticle` | lib/classes/many_to_many.py:64-65 | the same outcome as creating an article with this author: succeeds iff the title has 5 to 50 characters; on failure `InvalidTitle` and the author, magazine and registry unchanged; on success a fresh article appended at the tail of the author's list, the magazine's list and the registry, in each case not present before; the magazine's name and category are kept; the author's magazines gain exactly this magazine and the magazine's contributors gain exactly this author |
| `ManyToMany.Magazine.constructor` | lib/classes/many_to_many.py:88-90 | a valid magazine with the given name and category and no articles |
| `ManyToMany.Magazine.New` | lib/classes/many_to_many.py:82-90 | succeeds iff the name has 2 to 16 characters and the category is non-empty; a bad name is reported as `InvalidMagazineName` before the category is looked at, then a bad category as `InvalidCategory` |
| `ManyToMany.Magazine.SetName` | lib/classes/many_to_many.py:96-101 | stores the new name iff it has 2 to 16 characters, otherwise fails with `InvalidMagazineName` and keeps the old name; category and articles never change; a valid magazine stays valid |
| `ManyToMany.Magazine.SetCategory` | lib/classes/many_to_many.py:107-112 | stores the new category iff it is non-empty, otherwise fails with `InvalidCategory` and keeps the old one; name and articles never change; a valid magazine stays valid |
| `ManyToMany.Magazine.Contributors` | lib/classes/many_to_many.py:118-120 | exactly the authors that some article of the magazine currently references, each once |
| `ManyToMany.Magazine.ArticleTitles` | lib/classes/many_to_many.py:122-126 | `None` exactly when the magazine has no articles; otherwise one title per article, in list order |
| `ManyToMany.Magazine.ContributingAuthors` | lib/classes/many_to_many.py:128-137 | the authors occurring more than twice among the magazine's articles, each once; `None` exactly when every author occurs at most twice |
| `ManyToMany.Magazine.ContributingAuthorsAreContributors` | lib/classes/many_to_many.py:118-137 | every contributing author is also a contributor |
| `ManyToMany.Magazine.TopPublisher` | lib/classes/many_to_many.py:139-143 | `None` exactly for an empty input; otherwise an input element whose article count is at least every element's, with every element before it having strictly fewer, so the first maximum wins ties |
| `Counting.MultiplicityIsOccurrences` | lib/classes/many_to_many.py:131 | a counter built from a sequence holds each element as many times as the sequence does |
| `Counting.OccurrencesPositiveIffMember` | lib/classes/many_to_many.py:131-132 | an element has a positive count exactly when it occurs in the sequence |
| `Counting.FirstArgMax` | lib/classes/many_to_many.py:143 | for a non-empty key sequence: an index whose key is maximal and is strictly larger than every earlier key, which is the element `max` with a key function picks |
| `Scenarios.OneArticleTopics` | lib/classes/many_to_many.py:67-73 | an author with exactly one article has as topic areas exactly that article's current magazine category |
| `Scenarios.ThreeAgainstTwo` | lib/classes/many_to_many.py:128-137 | with articles by a, a, a, b, b the contributing authors are exactly {a} |
| `Scenarios.TopOfTwo` | lib/classes/many_to_many.py:139-143 | no magazines give no top publisher; of two magazines, the one with more articles is the top publisher in either input order |

## Left out

- Runtime `isinstance` checks on the author, the magazine and the strings
  (lines 7-11, 30, 40, 47, 84, 86, 99, 110): parameters have static,
  non-null class types and strings are `seq<char>`, so these checks cannot
  fail. Only the length checks are modelled.
- Exception classes and their messages (`ValueError`, `AttributeError`):
  each failure is one constructor of the `Error` datatype.
- The order of elements in `list(set(...))` (lines 62, 71, 120): it depends
  on hashing, so these results are sets.
- ManyToMany.Magazine.ContributingAuthors: returns a set. The source lists
  the qualifying authors in the order of their first article in the
  magazine's list, because a `Counter` iterates in insertion order. That
  order is not part of the documented behaviour, so the model drops it.
- Python's object hashing and equality: entities are compared by reference
  identity.
- The getters (`title`, `author`, `magazine`, `name`, `category`,
  `articles`) are plain field reads. The defensive copy `[:]` (lines 58,
  116) is implicit, because a Dafny `seq` is a value.
- `top_publisher` accepts any iterable; the model takes a sequence of
  magazines.
- String lengths count Dafny `char`s (Unicode scalar values). Python's
  `len` counts code points, so the two agree for every string without lone
  surrogates.
- Encapsulation of the lists: the source keeps `_articles` and `Article.all`
  private by convention and only `Article.__init__` appends to them. In the
  model the `articles` and `all` fields and the allocating constructor
  `Article.Link` are public, because Dafny hides members only through export
  sets. So the model does not enforce that the registry holds every article
  ever built, or that the lists grow only through article creation. What
  `Article.New` guarantees holds for every article made through it.
