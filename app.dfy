/**
 * The user/article service: two tables, users_db and articles_db, and the
 * request handlers that read and change them. Each handler takes its
 * already-decoded request fields (an absent field is None) and returns the
 * HTTP status with either the response record or the error message.
 */
module App {
  import opened Optional
  import opened Calendar
  import opened OrderedDict
  import opened AppEmail
  import opened Tags
  import opened Sequences

  datatype User = User(id: int, name: string, email: string)

  datatype Article = Article(id: int, userId: int, title: string, content: string,
                             tags: seq<string>, createdAt: DateTime)

  /** An article as a response shows it: created_at in display form. */
  datatype ArticleView = ArticleView(id: int, userId: int, title: string, content: string,
                                     tags: seq<string>, createdAt: string)

  /** A status code with the response body: a value, or an error message. */
  datatype Reply<T> = Ok(status: int, value: T) | Error(status: int, message: string)

  const MissingUserFields := "Name and email are required"
  const InvalidEmailFormat := "Invalid email format"
  const DuplicateEmail := "User with this email already exists"
  const UserNotFound := "User not found"
  const MissingArticleFields := "user_id, title, and content are required"
  const ArticleNotFound := "Article not found"
  const InvalidDateAfter := "Invalid date_after format. Use YYYY-MM-DD"

  /** Python truthiness of the optional user_id: present and not 0. */
  predicate GivenId(o: Option<int>) { o.Some? && o.value != 0 }

  type Users = seq<Entry<User>>
  type Articles = seq<Entry<Article>>

  // ---------------------------------------------------------------------
  // What the tables always satisfy
  // ---------------------------------------------------------------------

  ghost predicate ValidUser(e: Entry<User>) {
    e.value.id == e.key && e.value.name != "" && e.value.email != "" && ValidateEmail(e.value.email)
  }

  ghost predicate ValidArticle(e: Entry<Article>, userIds: set<int>) {
    && e.value.id == e.key && e.value.userId in userIds
    && e.value.title != "" && e.value.content != ""
    && ValidDateTime(e.value.createdAt)
    && forall k | 0 <= k < |e.value.tags| :: CleanTag(e.value.tags[k])
  }

  ghost predicate UniqueEmails(users: Users) {
    forall e, f | e in users && f in users && e.key != f.key :: e.value.email != f.value.email
  }

  /**
   * The store invariant: no key twice in either table, each record carries
   * its own key as id, users have a name and a valid email that no other user
   * has, and every article belongs to a stored user.
   */
  ghost predicate Consistent(users: Users, articles: Articles) {
    && DistinctKeys(users) && DistinctKeys(articles)
    && (forall e | e in users :: ValidUser(e))
    && UniqueEmails(users)
    && (forall e | e in articles :: ValidArticle(e, Keys(users)))
  }

  /** Some stored user has this email (the loop of create_user). */
  predicate EmailInUse(users: Users, email: string) {
    exists i | 0 <= i < |users| :: users[i].value.email == email
  }

  /** A stored user other than `id` has this email (the loop of update_user). */
  predicate EmailUsedByOther(users: Users, id: int, email: string) {
    exists i | 0 <= i < |users| :: users[i].key != id && users[i].value.email == email
  }

  /** Storing a valid user under its id keeps the store consistent when no other user has its email. */
  lemma PutUserConsistent(users: Users, articles: Articles, u: User)
    requires Consistent(users, articles)
    requires ValidUser(Entry(u.id, u)) && !EmailUsedByOther(users, u.id, u.email)
    ensures Consistent(Put(users, u.id, u), articles)
  {
    var r := Put(users, u.id, u);
    PutKeys(users, u.id, u);
    PutMembers(users, u.id, u);
    forall e, f | e in r && f in r && e.key != f.key ensures e.value.email != f.value.email {
      if e.key == u.id {
        var i :| 0 <= i < |users| && users[i] == f;
      } else if f.key == u.id {
        var i :| 0 <= i < |users| && users[i] == e;
      }
    }
  }

  /** The email a stored user already has is used by no other user. */
  lemma OwnEmailFree(users: Users, articles: Articles, u: User)
    requires Consistent(users, articles) && Entry(u.id, u) in users
    ensures !EmailUsedByOther(users, u.id, u.email)
  {
  }

  /** Rewriting a stored user leaves the other users, and so their emails, as they were. */
  lemma PutKeepsOthers(users: Users, u: User, email: string)
    requires DistinctKeys(users) && u.id in Keys(users)
    ensures EmailUsedByOther(Put(users, u.id, u), u.id, email) <==> EmailUsedByOther(users, u.id, email)
  {
  }

  /** Storing an article by a stored user, with a title, content and clean tags, keeps the store consistent. */
  lemma PutArticleConsistent(users: Users, articles: Articles, a: Article)
    requires Consistent(users, articles) && ValidArticle(Entry(a.id, a), Keys(users))
    ensures Consistent(users, Put(articles, a.id, a))
  {
    PutKeys(articles, a.id, a);
    PutMembers(articles, a.id, a);
  }

  /**
   * New ids are the table size plus one, so once a key below the largest
   * has been deleted from a table keyed 1..n, the next id is n, which is
   * still taken: storing under it overwrites that record in place and the
   * table does not grow.
   */
  lemma NextIdCollides<V>(d: seq<Entry<V>>, k: int, v: V)
    requires DistinctKeys(d) && forall i :: i in Keys(d) <==> 1 <= i <= |d|
    requires 1 <= k < |d|
    ensures var left := Remove(d, k);
      && |left| + 1 == |d| && |d| in Keys(left)
      && |Put(left, |d|, v)| == |left|
      && Get(Put(left, |d|, v), |d|) == Some(v)
  {
    var left := Remove(d, k);
    assert |d| in Keys(d);
    PutGet(left, |d|, v);
  }

  // ---------------------------------------------------------------------
  // Deleting a user and its articles
  // ---------------------------------------------------------------------

  /** The ids of the articles written by `uid`, in storage order: the ids delete_user collects. */
  function ArticleIdsOf(articles: Articles, uid: int): (ids: seq<int>)
    ensures forall x | x in ids :: exists e | e in articles :: e.key == x && e.value.userId == uid
    ensures forall e | e in articles && e.value.userId == uid :: e.key in ids
  {
    if articles == [] then []
    else
      var rest := ArticleIdsOf(articles[1..], uid);
      assert forall e | e in articles[1..] :: e in articles;
      if articles[0].value.userId == uid then [articles[0].key] + rest else rest
  }

  /** The articles table without the articles of `uid`, in the same order. */
  function ArticlesNotBy(articles: Articles, uid: int): (r: Articles)
    ensures forall e | e in r :: e in articles && e.value.userId != uid
    ensures forall e | e in articles && e.value.userId != uid :: e in r
    ensures Subsequence(r, articles)
  {
    if articles == [] then []
    else
      var t := ArticlesNotBy(articles[1..], uid);
      assert [articles[0]] + articles[1..] == articles;
      if articles[0].value.userId == uid then
        SubsequenceSkip(articles[0], t, articles[1..]);
        t
      else
        SubsequenceKeep(articles[0], t, articles[1..]);
        [articles[0]] + t
  }

  function SetOf(s: seq<int>): set<int> { set x | x in s }

  lemma SetOfPrefix(s: seq<int>, i: nat)
    requires i < |s|
    ensures SetOf(s[..i + 1]) == SetOf(s[..i]) + {s[i]}
  {
    assert s[..i + 1] == s[..i] + [s[i]];
  }

  /** Deleting each collected article id is dropping exactly the user's articles. */
  lemma {:induction false} RemoveCollectedIds(articles: Articles, uid: int)
    requires DistinctKeys(articles)
    ensures RemoveKeys(articles, SetOf(ArticleIdsOf(articles, uid))) == ArticlesNotBy(articles, uid)
  {
    RemoveKeysByOwner(articles, SetOf(ArticleIdsOf(articles, uid)), uid);
  }

  lemma {:induction false} RemoveKeysByOwner(articles: Articles, ks: set<int>, uid: int)
    requires DistinctKeys(articles)
    requires forall e | e in articles :: e.key in ks <==> e.value.userId == uid
    ensures RemoveKeys(articles, ks) == ArticlesNotBy(articles, uid)
  {
    if articles != [] {
      DistinctTail(articles);
      assert forall e | e in articles[1..] :: e in articles;
      RemoveKeysByOwner(articles[1..], ks, uid);
    }
  }

  /** Removing a user and its articles keeps the store consistent. */
  lemma RemoveUserConsistent(users: Users, articles: Articles, uid: int)
    requires Consistent(users, articles)
    ensures Consistent(Remove(users, uid), ArticlesNotBy(articles, uid))
  {
    var left := Remove(users, uid);
    var kept := ArticlesNotBy(articles, uid);
    RemoveCollectedIds(articles, uid);
    RemoveAfterRemoveKeys(articles, SetOf(ArticleIdsOf(articles, uid)), uid);
    assert DistinctKeys(kept);
    forall e | e in kept ensures ValidArticle(e, Keys(left)) {
      assert e in articles && e.value.userId != uid;
    }
  }

  // ---------------------------------------------------------------------
  // Listing articles
  // ---------------------------------------------------------------------

  /** The articles whose tag list holds exactly `tag`, in the given order. */
  function WithTag(arts: seq<Article>, tag: string): (r: seq<Article>)
    ensures forall a :: a in r <==> a in arts && tag in a.tags
    ensures Subsequence(r, arts)
  {
    if arts == [] then []
    else if tag in arts[0].tags then [arts[0]] + WithTag(arts[1..], tag)
    else WithTag(arts[1..], tag)
  }

  /** The articles created at or after the midnight that starts `d`, in the given order. */
  function CreatedSince(arts: seq<Article>, d: Date): (r: seq<Article>)
    ensures forall a :: a in r <==> a in arts && AtOrAfter(a.createdAt, Midnight(d))
    ensures Subsequence(r, arts)
  {
    if arts == [] then []
    else if AtOrAfter(arts[0].createdAt, Midnight(d)) then [arts[0]] + CreatedSince(arts[1..], d)
    else CreatedSince(arts[1..], d)
  }

  /**
   * What get_articles lists: the stored articles, narrowed to a tag when one
   * is given (a non-empty string) and to a start date when one parsed.
   */
  function Listing(arts: seq<Article>, tag: Option<string>, since: Option<Date>): (r: seq<Article>)
    ensures forall a :: a in r <==>
      && a in arts
      && (Given(tag) ==> tag.value in a.tags)
      && (since.Some? ==> AtOrAfter(a.createdAt, Midnight(since.value)))
    ensures Subsequence(r, arts)
  {
    SubsequenceRefl(arts);
    var tagged := if Given(tag) then WithTag(arts, tag.value) else arts;
    if since.None? then tagged
    else
      var r := CreatedSince(tagged, since.value);
      SubsequenceTrans(r, tagged, arts);
      r
  }

  /** Every article carries a valid creation time, so it can be displayed. */
  ghost predicate Displayable(arts: seq<Article>) {
    forall a | a in arts :: ValidDateTime(a.createdAt)
  }

  /** An article as its response shows it: the same fields, created_at formatted for display. */
  function View(a: Article): (v: ArticleView)
    requires ValidDateTime(a.createdAt)
    ensures v.id == a.id && v.userId == a.userId && v.title == a.title
    ensures v.content == a.content && v.tags == a.tags
    ensures |v.createdAt| == 19 && v.createdAt == FormatDateTime(a.createdAt)
  {
    ArticleView(a.id, a.userId, a.title, a.content, a.tags, FormatDateTime(a.createdAt))
  }

  /** Each article as its response shows it, in the same order. */
  function Views(arts: seq<Article>): (vs: seq<ArticleView>)
    requires Displayable(arts)
    ensures |vs| == |arts| && forall i | 0 <= i < |arts| :: vs[i] == View(arts[i])
  {
    if arts == [] then [] else [View(arts[0])] + Views(arts[1..])
  }

  /** The loop that formats each listed article for the response. */
  method Render(arts: seq<Article>) returns (views: seq<ArticleView>)
    requires Displayable(arts)
    ensures views == Views(arts)
  {
    views := [];
    for i := 0 to |arts|
      invariant |views| == i && forall k | 0 <= k < i :: views[k] == View(arts[k])
    {
      views := views + [View(arts[i])];
    }
  }

  /** The records of a consistent articles table can all be displayed. */
  lemma StoredDisplayable(users: Users, articles: Articles)
    requires Consistent(users, articles)
    ensures Displayable(Values(articles))
  {
    forall a | a in Values(articles) ensures ValidDateTime(a.createdAt) {
      var i :| 0 <= i < |Values(articles)| && Values(articles)[i] == a;
      assert articles[i] in articles;
    }
  }

  // ---------------------------------------------------------------------
  // The store and its request handlers
  // ---------------------------------------------------------------------

  /** The two in-memory tables, users_db and articles_db, and the handlers over them. */
  class Store {
    var users: Users
    var articles: Articles

    ghost predicate Valid()
      reads this
    {
      Consistent(users, articles)
    }

    /** Both tables start empty. */
    constructor ()
      ensures Valid() && users == [] && articles == []
    {
      users := [];
      articles := [];
    }

    /** Whether some stored user has `email`: the duplicate check of create_user. */
    method EmailTaken(email: string) returns (taken: bool)
      ensures taken <==> EmailInUse(users, email)
    {
      for i := 0 to |users|
        invariant forall k | 0 <= k < i :: users[k].value.email != email
      {
        if users[i].value.email == email {
          return true;
        }
      }
      return false;
    }

    /** Whether a stored user other than `id` has `email`: the duplicate check of update_user. */
    method EmailTakenByOther(id: int, email: string) returns (taken: bool)
      ensures taken <==> EmailUsedByOther(users, id, email)
    {
      for i := 0 to |users|
        invariant forall k | 0 <= k < i :: users[k].key == id || users[k].value.email != email
      {
        if users[i].key != id && users[i].value.email == email {
          return true;
        }
      }
      return false;
    }

    /** POST /users */
    method CreateUser(name: Option<string>, email: Option<string>) returns (r: Reply<User>)
      requires Valid()
      modifies this
      ensures Valid()
      ensures !Given(name) || !Given(email) ==>
        r == Error(400, MissingUserFields) && unchanged(this)
      ensures Given(name) && Given(email) && !ValidateEmail(email.value) ==>
        r == Error(400, InvalidEmailFormat) && unchanged(this)
      ensures Given(name) && Given(email) && ValidateEmail(email.value) && EmailInUse(old(users), email.value) ==>
        r == Error(409, DuplicateEmail) && unchanged(this)
      ensures Given(name) && Given(email) && ValidateEmail(email.value) && !EmailInUse(old(users), email.value) ==>
        var u := User(|old(users)| + 1, name.value, email.value);
        && r == Ok(201, u)
        && users == Put(old(users), u.id, u)
        && articles == old(articles)
    {
      if !Given(name) || !Given(email) {
        return Error(400, MissingUserFields);
      }
      if !ValidateEmail(email.value) {
        return Error(400, InvalidEmailFormat);
      }
      var taken := EmailTaken(email.value);
      if taken {
        return Error(409, DuplicateEmail);
      }
      var u := User(|users| + 1, name.value, email.value);
      PutUserConsistent(users, articles, u);
      users := Put(users, u.id, u);
      r := Ok(201, u);
    }

    /** GET /users: every stored user, in storage order. */
    method GetUsers() returns (r: Reply<seq<User>>)
      ensures r.Ok? && r.status == 200
      ensures |r.value| == |users| && forall i | 0 <= i < |users| :: r.value[i] == users[i].value
    {
      r := Ok(200, Values(users));
    }

    /** GET /users/<id> */
    method GetUser(id: int) returns (r: Reply<User>)
      ensures r.Ok? <==> id in Keys(users)
      ensures r.Ok? ==> r.status == 200 && Entry(id, r.value) in users
      ensures r.Error? ==> r == Error(404, UserNotFound)
    {
      match Get(users, id)
      case Some(u) => r := Ok(200, u);
      case None => r := Error(404, UserNotFound);
    }

    /**
     * PUT /users/<id>. A given name is stored before the email is looked at,
     * so it stays even when the email is then refused with 400 or 409.
     */
    method UpdateUser(id: int, name: Option<string>, email: Option<string>) returns (r: Reply<User>)
      requires Valid()
      modifies this
      ensures Valid()
      ensures articles == old(articles)
      ensures id !in Keys(old(users)) ==> r == Error(404, UserNotFound) && unchanged(this)
      ensures id in Keys(old(users)) ==>
        var u := Get(old(users), id).value;
        var renamed := if Given(name) then u.(name := name.value) else u;
        && (Given(email) && !ValidateEmail(email.value) ==>
              r == Error(400, InvalidEmailFormat) && users == Put(old(users), id, renamed))
        && (Given(email) && ValidateEmail(email.value) && EmailUsedByOther(old(users), id, email.value) ==>
              r == Error(409, DuplicateEmail) && users == Put(old(users), id, renamed))
        && (!Given(email) ==>
              r == Ok(200, renamed) && users == Put(old(users), id, renamed))
        && (Given(email) && ValidateEmail(email.value) && !EmailUsedByOther(old(users), id, email.value) ==>
              var updated := renamed.(email := email.value);
              r == Ok(200, updated) && users == Put(old(users), id, updated))
    {
      var found := Get(users, id);
      if found.None? {
        return Error(404, UserNotFound);
      }
      var u := found.value;
      ghost var before := users;
      OwnEmailFree(users, articles, u);
      if Given(name) {
        u := u.(name := name.value);
        PutUserConsistent(users, articles, u);
        users := Put(users, id, u);
      } else {
        PutSame(users, id, u);
      }
      if Given(email) {
        if !ValidateEmail(email.value) {
          return Error(400, InvalidEmailFormat);
        }
        PutKeepsOthers(before, u, email.value);
        var taken := EmailTakenByOther(id, email.value);
        if taken {
          return Error(409, DuplicateEmail);
        }
        PutPut(before, id, u, u.(email := email.value));
        u := u.(email := email.value);
        PutUserConsistent(users, articles, u);
        users := Put(users, id, u);
      }
      r := Ok(200, u);
    }

    /** DELETE /users/<id>: the user goes, and with it every article it wrote. */
    method DeleteUser(id: int) returns (r: Reply<()>)
      requires Valid()
      modifies this
      ensures Valid()
      ensures id !in Keys(old(users)) ==> r == Error(404, UserNotFound) && unchanged(this)
      ensures id in Keys(old(users)) ==>
        && r == Ok(204, ())
        && users == Remove(old(users), id)
        && articles == ArticlesNotBy(old(articles), id)
    {
      if Get(users, id).None? {
        return Error(404, UserNotFound);
      }
      RemoveUserConsistent(users, articles, id);
      users := Remove(users, id);
      ghost var remaining := users;
      ghost var before := articles;
      var doomed := ArticleIdsOf(articles, id);
      RemoveNoKeys(before);
      assert SetOf(doomed[..0]) == {};
      for i := 0 to |doomed|
        invariant users == remaining
        invariant articles == RemoveKeys(before, SetOf(doomed[..i]))
      {
        RemoveAfterRemoveKeys(before, SetOf(doomed[..i]), doomed[i]);
        SetOfPrefix(doomed, i);
        articles := Remove(articles, doomed[i]);
      }
      assert doomed[..|doomed|] == doomed;
      RemoveCollectedIds(before, id);
      r := Ok(204, ());
    }

    /** POST /articles, with `now` standing for the clock reading. */
    method CreateArticle(userId: Option<int>, title: Option<string>, content: Option<string>,
                         tags: Option<string>, now: DateTime) returns (r: Reply<ArticleView>)
      requires Valid() && ValidDateTime(now)
      modifies this
      ensures Valid()
      ensures users == old(users)
      ensures !GivenId(userId) || !Given(title) || !Given(content) ==>
        r == Error(400, MissingArticleFields) && unchanged(this)
      ensures GivenId(userId) && Given(title) && Given(content) && userId.value !in Keys(old(users)) ==>
        r == Error(404, UserNotFound) && unchanged(this)
      ensures GivenId(userId) && Given(title) && Given(content) && userId.value in Keys(old(users)) ==>
        var a := Article(|old(articles)| + 1, userId.value, title.value, content.value, ParseTags(tags), now);
        && r == Ok(201, View(a))
        && articles == Put(old(articles), a.id, a)
    {
      if !GivenId(userId) || !Given(title) || !Given(content) {
        return Error(400, MissingArticleFields);
      }
      if Get(users, userId.value).None? {
        return Error(404, UserNotFound);
      }
      var a := Article(|articles| + 1, userId.value, title.value, content.value, ParseTags(tags), now);
      PutArticleConsistent(users, articles, a);
      articles := Put(articles, a.id, a);
      r := Ok(201, View(a));
    }

    /** GET /articles, with the optional `tag` and `date_after` query arguments. */
    method GetArticles(tag: Option<string>, dateAfter: Option<string>) returns (r: Reply<seq<ArticleView>>)
      requires Valid()
      ensures Given(dateAfter) && ParseDate(dateAfter.value).None? ==> r == Error(400, InvalidDateAfter)
      ensures !(Given(dateAfter) && ParseDate(dateAfter.value).None?) ==>
        var since := if Given(dateAfter) then ParseDate(dateAfter.value) else None;
        && Displayable(Listing(Values(articles), tag, since))
        && r == Ok(200, Views(Listing(Values(articles), tag, since)))
    {
      ghost var since: Option<Date> := None;
      var selected := Values(articles);
      if Given(tag) {
        selected := WithTag(selected, tag.value);
      }
      if Given(dateAfter) {
        var parsed := ParseDate(dateAfter.value);
        if parsed.None? {
          return Error(400, InvalidDateAfter);
        }
        since := parsed;
        selected := CreatedSince(selected, parsed.value);
      }
      assert selected == Listing(Values(articles), tag, since);
      StoredDisplayable(users, articles);
      var views := Render(selected);
      r := Ok(200, views);
    }

    /** GET /articles/<id> */
    method GetArticle(id: int) returns (r: Reply<ArticleView>)
      requires Valid()
      ensures r.Ok? <==> id in Keys(articles)
      ensures r.Ok? ==> r.status == 200 && exists a :: Entry(id, a) in articles && ValidDateTime(a.createdAt) && r.value == View(a)
      ensures r.Error? ==> r == Error(404, ArticleNotFound)
    {
      match Get(articles, id)
      case Some(a) => r := Ok(200, View(a));
      case None => r := Error(404, ArticleNotFound);
    }
  }
}
