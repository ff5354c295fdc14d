/** Client code and lemmas over the model: each method walks through one
    concrete situation and asserts what the model promises there, and each
    lemma states a documented case of a query for every input of its shape. */
module Scenarios {
  import opened Wrappers
  import opened ManyToMany

  /** A fresh author has no topic areas: the result is `None`, not an empty
      set. Renaming the author fails and the name stays. */
  method FreshAuthor() {
    var r := Author.New("Carry Bradshaw");
    assert r.Success?;
    var au := r.value;
    assert au.TopicAreas() == None;
    var rename := au.SetName("ActuallyTopher");
    assert rename == Fail(NameImmutable);
    assert au.name == "Carry Bradshaw";
  }

  /** Titles of 4 and 51 characters are refused and no list grows; a title
      of 5 characters is accepted and appended at the tail of all three
      lists. */
  method TitleBounds() {
    var registry := new Registry();
    var au := new Author("Carry Bradshaw");
    var m := new Magazine("Vogue", "Fashion");
    var short := Article.New(au, m, "Four", registry);
    assert short == Failure(InvalidTitle);
    var long := Article.New(au, m, "Fifty-one characters long, which is one too many!!!", registry);
    assert |"Fifty-one characters long, which is one too many!!!"| == 51;
    assert long == Failure(InvalidTitle);
    assert au.articles == [] && m.articles == [] && registry.all == [];
    var ok := Article.New(au, m, "Five!", registry);
    assert ok.Success?;
    assert au.articles == [ok.value] && m.articles == [ok.value] && registry.all == [ok.value];
    OneArticleTopics(au);
    assert au.TopicAreas() == Some({"Fashion"});
  }

  /** An author with a single article has exactly that article's current
      magazine category as topic area. */
  lemma OneArticleTopics(au: Author)
    requires |au.articles| == 1
    ensures au.TopicAreas() == Some({au.articles[0].magazine.category})
  {
    var topics := au.TopicAreas();
    assert topics.value == {au.articles[0].magazine.category};
  }

  /** A magazine name must keep 2 to 16 characters across updates, and a
      category must stay non-empty, so the magazine stays valid. */
  method MagazineSetters() {
    var r := Magazine.New("Vogue", "Fashion");
    assert r.Success?;
    var m := r.value;
    var tooShort := m.SetName("V");
    assert tooShort.Fail? && m.name == "Vogue";
    var tooLong := m.SetName("Seventeen Letters");
    assert tooLong.Fail? && m.name == "Vogue";
    var renamed := m.SetName("New Yorker");
    assert renamed.Pass? && m.name == "New Yorker";
    var empty := m.SetCategory("");
    assert empty.Fail? && m.category == "Fashion";
    assert m.Valid();
    var bad := Magazine.New("V", "");
    assert bad == Failure(InvalidMagazineName);
  }

  /** Reassigning an article's author changes only that reference: the
      article stays in the first author's list and does not enter the new
      author's, while the magazine's contributors follow the new author. */
  method ReassignAuthor() {
    var registry := new Registry();
    var carry := new Author("Carry Bradshaw");
    var nathaniel := new Author("Nathaniel Hawthorne");
    var vogue := new Magazine("Vogue", "Fashion");
    var r := carry.AddArticle(vogue, "How to wear a tutu with style", registry);
    assert r.Success? && carry.articles == [r.value] && vogue.articles == [r.value];
    var a := r.value;
    a.SetAuthor(nathaniel);
    assert a.author == nathaniel;
    assert carry.articles == [a] && nathaniel.articles == [];
    assert vogue.Contributors() == {nathaniel};
  }

  /** Reassigning an article's magazine likewise leaves both magazines'
      lists alone, while the author's magazines and topic areas follow the
      new magazine. */
  method ReassignMagazine() {
    var registry := new Registry();
    var carry := new Author("Carry Bradshaw");
    var vogue := new Magazine("Vogue", "Fashion");
    var afar := new Magazine("AFAR", "Travel");
    var r := carry.AddArticle(vogue, "How to wear a tutu with style", registry);
    assert r.Success? && carry.articles == [r.value] && vogue.articles == [r.value];
    var a := r.value;
    a.SetMagazine(afar);
    assert a.magazine == afar;
    assert vogue.articles == [a] && afar.articles == [];
    assert carry.Magazines() == {afar};
    OneArticleTopics(carry);
    assert carry.TopicAreas() == Some({"Travel"});
  }

  /** A magazine whose five articles are, in order, by `a`, `a`, `a`, `b`, `b`
      has exactly `a` as contributing author. */
  lemma ThreeAgainstTwo(m: Magazine, a: Author, b: Author)
    requires a != b && |m.articles| == 5
    requires m.articles[0].author == m.articles[1].author == m.articles[2].author == a
    requires m.articles[3].author == m.articles[4].author == b
    ensures m.ContributingAuthors() == Some({a})
  {
    var stream := m.AuthorStream();
    assert stream == [a, a, a, b, b];
    Counting.MultiplicityIsOccurrences(stream, a);
    Counting.MultiplicityIsOccurrences(stream, b);
    var counts: multiset<Author> := multiset(stream);
    assert counts[a] == 3 && counts[b] == 2;
    var r := m.ContributingAuthors();
    assert r.Some? && a in r.value;
    forall au | au in r.value
      ensures au == a
    {
      Counting.OccurrencesPositiveIffMember(stream, au);
    }
    assert r.value == {a};
  }

  /** Of two magazines, the one with more articles is the top publisher,
      whichever position it has. */
  lemma TopOfTwo(m1: Magazine, m2: Magazine)
    requires |m1.articles| > |m2.articles|
    ensures Magazine.TopPublisher([]) == None
    ensures Magazine.TopPublisher([m1, m2]) == Some(m1)
    ensures Magazine.TopPublisher([m2, m1]) == Some(m1)
  {
  }
}
