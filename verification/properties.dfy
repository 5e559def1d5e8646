/**
 What the handlers guarantee about the collection: the first-match lookup, the effect of a
 successful create, update, delete and like, the not-found case, and the invariant that ids
 stay pairwise distinct.
 */
module RepositoryProperties {
  import opened Repositories

  /** Two collections with the same ids in the same order answer every lookup alike. */
  lemma FirstIndexFollowsIds(a: seq<Repository>, b: seq<Repository>, id: Id)
    requires IdsOf(a) == IdsOf(b)
    ensures FirstIndex(a, id) == FirstIndex(b, id)
  {
  }

  /** After create, the record sits at the end of the collection, the earlier records are
      untouched, and a lookup by the new id finds the new record. */
  lemma CreateAppends(s: seq<Repository>, id: Id, body: CreateBody)
    requires !HasId(s, id)
    ensures var after := s + [NewRepository(id, body)];
      |after| == |s| + 1 && after[..|s|] == s &&
      after[|s|] == Repository(id, Some(body.title), Some(body.url), body.techs, 0) &&
      FirstIndex(after, id) == |s|
  {
  }

  /** A fresh id keeps the ids of the collection pairwise distinct. */
  lemma CreateKeepsIdsDistinct(s: seq<Repository>, id: Id, body: CreateBody)
    requires DistinctIds(s) && !HasId(s, id)
    ensures DistinctIds(s + [NewRepository(id, body)])
  {
  }

  /** Update, delete and like report not-found exactly when no record carries the id, and
      then leave the collection as it was. */
  lemma NotFoundChangesNothing(s: seq<Repository>, id: Id, body: UpdateBody)
    ensures UpdateStep(s, id, body).outcome == NotFound <==> !HasId(s, id)
    ensures DeleteStep(s, id).outcome == NotFound <==> !HasId(s, id)
    ensures LikeStep(s, id).outcome == NotFound <==> !HasId(s, id)
    ensures !HasId(s, id) ==>
      UpdateStep(s, id, body).repos == s && DeleteStep(s, id).repos == s &&
      LikeStep(s, id).repos == s
  {
  }

  /** A successful update replaces only the first matching record; that record keeps its id
      and likes and takes exactly the body's title, url and techs, an omitted one becoming
      absent. The answer is the updated record. */
  lemma UpdateOverwritesMatch(s: seq<Repository>, id: Id, body: UpdateBody)
    requires HasId(s, id)
    ensures var i := FirstIndex(s, id); var after := UpdateStep(s, id, body);
      0 <= i < |s| && |after.repos| == |s| &&
      after.outcome == Done(after.repos[i]) &&
      after.repos[i].id == s[i].id == id &&
      after.repos[i].likes == s[i].likes &&
      after.repos[i].title == body.title &&
      after.repos[i].url == body.url &&
      after.repos[i].techs == body.techs &&
      forall j :: 0 <= j < |s| && j != i ==> after.repos[j] == s[j]
  {
  }

  /** The `likes` of an update body has no effect on the outcome or the collection. */
  lemma UpdateIgnoresBodyLikes(s: seq<Repository>, id: Id, body: UpdateBody, likes: Option<real>)
    ensures UpdateStep(s, id, body.(likes := likes)) == UpdateStep(s, id, body)
  {
  }

  /** A successful delete removes the first matching record and nothing else; the records
      after it move down one place, so the remaining ones keep their relative order. With
      distinct ids, no record with that id remains. */
  lemma DeleteRemovesMatch(s: seq<Repository>, id: Id)
    requires HasId(s, id)
    ensures var i := FirstIndex(s, id); var after := DeleteStep(s, id);
      0 <= i < |s| && after.outcome == Deleted && |after.repos| == |s| - 1 &&
      after.repos == s[..i] + s[i + 1..] &&
      forall j :: 0 <= j < |after.repos| ==> after.repos[j] == s[if j < i then j else j + 1]
    ensures DistinctIds(s) ==> !HasId(DeleteStep(s, id).repos, id)
  {
  }

  /** A successful like adds exactly one to the matching record's likes, keeps its other
      fields and leaves every other record alone. The answer is the liked record. */
  lemma LikeIncrementsMatch(s: seq<Repository>, id: Id)
    requires HasId(s, id)
    ensures var i := FirstIndex(s, id); var after := LikeStep(s, id);
      0 <= i < |s| && |after.repos| == |s| &&
      after.outcome == Done(after.repos[i]) &&
      after.repos[i] == s[i].(likes := s[i].likes + 1) &&
      forall j :: 0 <= j < |s| && j != i ==> after.repos[j] == s[j]
  {
  }

  /** Update and like never alter an id, so neither changes which record a lookup finds. */
  lemma UpdateAndLikeKeepIds(s: seq<Repository>, id: Id, body: UpdateBody)
    ensures IdsOf(UpdateStep(s, id, body).repos) == IdsOf(s)
    ensures IdsOf(LikeStep(s, id).repos) == IdsOf(s)
  {
  }

  /** Update, delete and like keep the ids of the collection pairwise distinct. */
  lemma StepsKeepIdsDistinct(s: seq<Repository>, id: Id, body: UpdateBody)
    requires DistinctIds(s)
    ensures DistinctIds(UpdateStep(s, id, body).repos)
    ensures DistinctIds(DeleteStep(s, id).repos)
    ensures DistinctIds(LikeStep(s, id).repos)
  {
  }

  /** The collection after `n` likes of the same id. */
  function LikeTimes(s: seq<Repository>, id: Id, n: nat): seq<Repository> {
    if n == 0 then s else LikeStep(LikeTimes(s, id, n - 1), id).repos
  }

  /** Repeated likes raise the matching record's count by one each time and touch nothing
      else. */
  lemma {:induction false} RepeatedLikes(s: seq<Repository>, id: Id, n: nat)
    requires HasId(s, id)
    ensures var i := FirstIndex(s, id); var after := LikeTimes(s, id, n);
      0 <= i < |s| && |after| == |s| && FirstIndex(after, id) == i &&
      after[i] == s[i].(likes := s[i].likes + n) &&
      forall j :: 0 <= j < |s| && j != i ==> after[j] == s[j]
  {
    if n > 0 {
      RepeatedLikes(s, id, n - 1);
      var before := LikeTimes(s, id, n - 1);
      var i := FirstIndex(s, id);
      assert before[i].id == id;
      LikeIncrementsMatch(before, id);
      UpdateAndLikeKeepIds(before, id, UpdateBody(None, None, None, None));
      FirstIndexFollowsIds(LikeStep(before, id).repos, before, id);
    }
  }

  /** Create A, B and C, then delete B: the collection lists A and C, in that order. */
  lemma DeleteMiddleOfThree(a: Id, b: Id, c: Id, bodyA: CreateBody, bodyB: CreateBody, bodyC: CreateBody)
    requires a != b && b != c && a != c
    ensures var s := [NewRepository(a, bodyA), NewRepository(b, bodyB), NewRepository(c, bodyC)];
      DeleteStep(s, b) == Step(Deleted, [NewRepository(a, bodyA), NewRepository(c, bodyC)])
  {
    var s := [NewRepository(a, bodyA), NewRepository(b, bodyB), NewRepository(c, bodyC)];
    assert s[1].id == b;
    assert FirstIndex(s, b) == 1;
  }

  /** Create a record with a title, a url and one tech, then update it with a title only:
      the url and the techs become absent and the likes stay at zero. */
  lemma UpdateClearsOmittedFields(s: seq<Repository>, id: Id)
    requires !HasId(s, id)
    ensures var created := s + [NewRepository(id, CreateBody("T", "http://x.com", Some(["a"])))];
      UpdateStep(created, id, UpdateBody(Some("T2"), None, None, None)).outcome ==
        Done(Repository(id, Some("T2"), None, None, 0))
  {
    CreateAppends(s, id, CreateBody("T", "http://x.com", Some(["a"])));
  }
}
