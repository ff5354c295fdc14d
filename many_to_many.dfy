/** The in-memory many-to-many object model: authors and magazines joined by
    articles. Each `Article` is appended, when it is created, to its author's
    and its magazine's article lists and to a registry of every article; the
    derived queries of `Author` and `Magazine` are computed on demand from
    those lists, through each article's *current* author and magazine. */
module ManyToMany {
  import opened Wrappers
  import Counting

  /** The validation failures the constructors and setters raise. */
  datatype Error =
    | InvalidAuthorName
    | InvalidMagazineName
    | InvalidCategory
    | InvalidTitle
    | NameImmutable

  const MinTitleLength := 5
  const MaxTitleLength := 50
  const MinMagazineNameLength := 2
  const MaxMagazineNameLength := 16

  predicate ValidTitle(title: string) {
    MinTitleLength <= |title| <= MaxTitleLength
  }

  predicate ValidAuthorName(name: string) {
    |name| > 0
  }

  predicate ValidMagazineName(name: string) {
    MinMagazineNameLength <= |name| <= MaxMagazineNameLength
  }

  predicate ValidCategory(category: string) {
    |category| > 0
  }

  /** The list of every article ever created, in creation order (the class
      attribute `Article.all`, made an explicit object). It only grows. */
  class Registry {
    var all: seq<Article>

    constructor ()
      ensures all == []
    {
      all := [];
    }
  }

  class Article {
    var author: Author
    var magazine: Magazine
    const title: string

    predicate Valid() {
      ValidTitle(title)
    }

    /** Allocation and field initialisation only; `New` is the validating
        entry point that also links the article into the lists. */
    constructor Link(author: Author, magazine: Magazine, title: string)
      requires ValidTitle(title)
      ensures Valid()
      ensures this.author == author && this.magazine == magazine && this.title == title
    {
      this.author := author;
      this.magazine := magazine;
      this.title := title;
    }

    /** Creates an article. A title outside [5, 50] characters fails before
        anything is appended; otherwise the new article is appended, once and
        at the tail, to the author's list, the magazine's list and the
        registry, and nothing else changes. */
    static method New(author: Author, magazine: Magazine, title: string, registry: Registry)
      returns (r: Result<Article, Error>)
      modifies author, magazine, registry
      ensures r.Success? <==> ValidTitle(title)
      ensures r.Failure? ==> r.error == InvalidTitle && unchanged(author, magazine, registry)
      ensures r.Success? ==>
        && fresh(r.value) && r.value.Valid()
        && r.value.author == author && r.value.magazine == magazine && r.value.title == title
        && r.value !in old(author.articles) && author.articles == old(author.articles) + [r.value]
        && r.value !in old(magazine.articles) && magazine.articles == old(magazine.articles) + [r.value]
        && r.value !in old(registry.all) && registry.all == old(registry.all) + [r.value]
        && magazine.name == old(magazine.name) && magazine.category == old(magazine.category)
      ensures r.Success? ==>
        && author.Magazines() == old(author.Magazines()) + {magazine}
        && magazine.Contributors() == old(magazine.Contributors()) + {author}
    {
      if !ValidTitle(title) {
        return Failure(InvalidTitle);
      }
      var a := new Article.Link(author, magazine, title);
      author.articles := author.articles + [a];
      magazine.articles := magazine.articles + [a];
      registry.all := registry.all + [a];
      r := Success(a);
    }

    /** Re-points the article at another author. No article list changes:
        list membership keeps the linkage made at creation. */
    method SetAuthor(newAuthor: Author)
      modifies this
      ensures author == newAuthor && magazine == old(magazine)
    {
      author := newAuthor;
    }

    /** Re-points the article at another magazine; as with `SetAuthor`, no
        article list changes. */
    method SetMagazine(newMagazine: Magazine)
      modifies this
      ensures magazine == newMagazine && author == old(author)
    {
      magazine := newMagazine;
    }
  }

  class Author {
    const name: string
    var articles: seq<Article>

    predicate Valid() {
      ValidAuthorName(name)
    }

    constructor (name: string)
      requires ValidAuthorName(name)
      ensures Valid() && this.name == name && articles == []
    {
      this.name := name;
      articles := [];
    }

    /** Creates an author with no articles; an empty name fails. */
    static method New(name: string) returns (r: Result<Author, Error>)
      ensures r.Success? <==> ValidAuthorName(name)
      ensures r.Failure? ==> r.error == InvalidAuthorName
      ensures r.Success? ==> fresh(r.value) && r.value.Valid() && r.value.name == name && r.value.articles == []
    {
      if !ValidAuthorName(name) {
        return Failure(InvalidAuthorName);
      }
      var au := new Author(name);
      r := Success(au);
    }

    /** Every attempt to rename an author fails. The method may modify
        nothing, so `name` (a constant besides) keeps its value. */
    method SetName(newName: string) returns (r: Outcome<Error>)
      ensures r == Fail(NameImmutable)
    {
      r := Fail(NameImmutable);
    }

    /** The distinct magazines the author's articles currently point at. */
    function Magazines(): (r: set<Magazine>)
      reads this, articles
      ensures forall i :: 0 <= i < |articles| ==> articles[i].magazine in r
      ensures forall m | m in r :: exists i :: 0 <= i < |articles| && articles[i].magazine == m
    {
      set a | a in articles :: a.magazine
    }

    /** The distinct categories of the author's magazines, or `None` when the
        author has no articles. */
    function TopicAreas(): (r: Option<set<string>>)
      reads this, articles, Magazines()
      ensures r.None? <==> articles == []
      ensures r.Some? ==> forall c :: c in r.value <==> exists i :: 0 <= i < |articles| && articles[i].magazine.category == c
    {
      var magazines := Magazines();
      assert articles != [] ==> articles[0].magazine in magazines;
      if magazines == {} then None
      else
        Some(set m | m in magazines :: m.category)
    }

    /** Creates an article by this author: exactly `Article.New` with
        `this` as the author. */
    method AddArticle(magazine: Magazine, title: string, registry: Registry)
      returns (r: Result<Article, Error>)
      modifies this, magazine, registry
      ensures r.Success? <==> ValidTitle(title)
      ensures r.Failure? ==> r.error == InvalidTitle && unchanged(this, magazine, registry)
      ensures r.Success? ==>
        && fresh(r.value) && r.value.Valid()
        && r.value.author == this && r.value.magazine == magazine && r.value.title == title
        && r.value !in old(articles) && articles == old(articles) + [r.value]
        && r.value !in old(magazine.articles) && magazine.articles == old(magazine.articles) + [r.value]
        && r.value !in old(registry.all) && registry.all == old(registry.all) + [r.value]
        && magazine.name == old(magazine.name) && magazine.category == old(magazine.category)
      ensures r.Success? ==>
        && Magazines() == old(Magazines()) + {magazine}
        && magazine.Contributors() == old(magazine.Contributors()) + {this}
    {
      r := Article.New(this, magazine, title, registry);
    }
  }

  class Magazine {
    var name: string
    var category: string
    var articles: seq<Article>

    predicate Valid()
      reads this
    {
      ValidMagazineName(name) && ValidCategory(category)
    }

    constructor (name: string, category: string)
      requires ValidMagazineName(name) && ValidCategory(category)
      ensures Valid() && this.name == name && this.category == category && articles == []
    {
      this.name := name;
      this.category := category;
      articles := [];
    }

    /** Creates a magazine with no articles. The name is checked first, so a
        bad name is reported even when the category is bad too. */
    static method New(name: string, category: string) returns (r: Result<Magazine, Error>)
      ensures r.Success? <==> ValidMagazineName(name) && ValidCategory(category)
      ensures !ValidMagazineName(name) ==> r == Failure(InvalidMagazineName)
      ensures ValidMagazineName(name) && !ValidCategory(category) ==> r == Failure(InvalidCategory)
      ensures r.Success? ==>
        && fresh(r.value) && r.value.Valid()
        && r.value.name == name && r.value.category == category && r.value.articles == []
    {
      if !ValidMagazineName(name) {
        return Failure(InvalidMagazineName);
      }
      if !ValidCategory(category) {
        return Failure(InvalidCategory);
      }
      var m := new Magazine(name, category);
      r := Success(m);
    }

    /** Renames the magazine when the new name has 2 to 16 characters;
        otherwise fails and keeps the old name. */
    method SetName(newName: string) returns (r: Outcome<Error>)
      modifies this
      ensures r.Pass? <==> ValidMagazineName(newName)
      ensures r.Fail? ==> r.error == InvalidMagazineName
      ensures name == (if r.Pass? then newName else old(name))
      ensures category == old(category) && articles == old(articles)
      ensures old(Valid()) ==> Valid()
    {
      if !ValidMagazineName(newName) {
        return Fail(InvalidMagazineName);
      }
      name := newName;
      r := Pass;
    }

    /** Changes the category when the new one is non-empty; otherwise fails
        and keeps the old category. */
    method SetCategory(newCategory: string) returns (r: Outcome<Error>)
      modifies this
      ensures r.Pass? <==> ValidCategory(newCategory)
      ensures r.Fail? ==> r.error == InvalidCategory
      ensures category == (if r.Pass? then newCategory else old(category))
      ensures name == old(name) && articles == old(articles)
      ensures old(Valid()) ==> Valid()
    {
      if !ValidCategory(newCategory) {
        return Fail(InvalidCategory);
      }
      category := newCategory;
      r := Pass;
    }

    /** The distinct authors the magazine's articles currently point at. */
    function Contributors(): (r: set<Author>)
      reads this, articles
      ensures forall i :: 0 <= i < |articles| ==> articles[i].author in r
      ensures forall au | au in r :: exists i :: 0 <= i < |articles| && articles[i].author == au
    {
      set a | a in articles :: a.author
    }

    /** The titles of the magazine's articles in list order, or `None` when
        it has no articles. */
    function ArticleTitles(): (r: Option<seq<string>>)
      reads this
      ensures r.None? <==> articles == []
      ensures r.Some? ==> |r.value| == |articles| && forall i :: 0 <= i < |articles| ==> r.value[i] == articles[i].title
    {
      if articles == [] then None
      else
        var arts := articles;
        Some(seq(|arts|, i requires 0 <= i < |arts| => arts[i].title))
    }

    /** The current author of each of the magazine's articles, in list order
        (the stream the source feeds to its `Counter`). */
    function AuthorStream(): (r: seq<Author>)
      reads this, articles
      ensures |r| == |articles| && forall i :: 0 <= i < |articles| ==> r[i] == articles[i].author
    {
      var arts := articles;
      seq(|arts|, i requires 0 <= i < |arts| reads arts => arts[i].author)
    }

    /** The authors occurring more than twice among the magazine's articles,
        each once, or `None` when no author does. */
    function ContributingAuthors(): (r: Option<set<Author>>)
      reads this, articles
      ensures r.None? <==> forall i :: 0 <= i < |articles| ==> Counting.Occurrences(AuthorStream(), articles[i].author) <= 2
      ensures r.Some? ==> forall au | au in r.value :: Counting.Occurrences(AuthorStream(), au) > 2
      ensures r.Some? ==> forall i :: 0 <= i < |articles| && Counting.Occurrences(AuthorStream(), articles[i].author) > 2 ==> articles[i].author in r.value
    {
      var stream := AuthorStream();
      var counts := multiset(stream);
      var qualifying := set au | au in counts && counts[au] > 2;
      assert forall au | au in qualifying :: Counting.Occurrences(stream, au) > 2 by {
        forall au | au in qualifying ensures Counting.Occurrences(stream, au) > 2 {
          Counting.MultiplicityIsOccurrences(stream, au);
        }
      }
      assert forall i :: 0 <= i < |stream| ==> (stream[i] in qualifying <==> Counting.Occurrences(stream, stream[i]) > 2) by {
        forall i | 0 <= i < |stream| ensures stream[i] in qualifying <==> Counting.Occurrences(stream, stream[i]) > 2 {
          Counting.MultiplicityIsOccurrences(stream, stream[i]);
        }
      }
      if qualifying == {} then None else Some(qualifying)
    }

    /** Every contributing author is a contributor. */
    lemma ContributingAuthorsAreContributors()
      ensures ContributingAuthors().Some? ==> ContributingAuthors().value <= Contributors()
    {
    }

    /** The article count of each magazine, in input order. */
    static function ArticleCounts(magazines: seq<Magazine>): (r: seq<int>)
      reads magazines
      ensures |r| == |magazines| && forall i :: 0 <= i < |magazines| ==> r[i] == |magazines[i].articles|
    {
      seq(|magazines|, i requires 0 <= i < |magazines| reads magazines => |magazines[i].articles|)
    }

    /** The magazine with the most articles, the first one in input order
        among equals, or `None` for an empty input. */
    static function TopPublisher(magazines: seq<Magazine>): (r: Option<Magazine>)
      reads magazines
      ensures r.None? <==> magazines == []
      ensures r.Some? ==>
        exists k :: 0 <= k < |magazines| && magazines[k] == r.value
          && (forall j :: 0 <= j < |magazines| ==> |magazines[j].articles| <= |magazines[k].articles|)
          && (forall j :: 0 <= j < k ==> |magazines[j].articles| < |magazines[k].articles|)
    {
      if magazines == [] then None
      else Some(magazines[Counting.FirstArgMax(ArticleCounts(magazines))])
    }
  }
}
