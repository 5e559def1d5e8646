/**
 The records held by the repository store and the effect of each request handler on the
 ordered collection, stated as pure functions of the collection before the request.
 The class in module App performs these effects in place; the lemmas in module
 RepositoryProperties state what they guarantee.
 */
module Repositories {

  datatype Option<T> = None | Some(value: T)

  /** The opaque identifier produced by the id generator when a record is created. */
  type Id = string

  /** A stored record. `title`, `url` and `techs` are optional because create accepts a
      missing `techs`, and update clears every one of the three that its body omits. */
  datatype Repository = Repository(
    id: Id,
    title: Option<string>,
    url: Option<string>,
    techs: Option<seq<string>>,
    likes: nat)

  /** The body of a create request once it has passed validation: `title` and `url` are
      required, `techs` is optional. */
  datatype CreateBody = CreateBody(title: string, url: string, techs: Option<seq<string>>)

  /** The body of an update request once it has passed validation: every field is optional,
      and `likes` (any number) is accepted although the handler never reads it. */
  datatype UpdateBody = UpdateBody(
    title: Option<string>,
    url: Option<string>,
    techs: Option<seq<string>>,
    likes: Option<real>)

  /** What a handler reports instead of an HTTP status: the record it answers with, the
      empty success of delete, or the failure for an id that matches no record. */
  datatype Outcome = Done(repo: Repository) | Deleted | NotFound

  /** A handler's outcome together with the collection it leaves behind. */
  datatype Step = Step(outcome: Outcome, repos: seq<Repository>)

  ghost predicate HasId(s: seq<Repository>, id: Id) {
    exists i :: 0 <= i < |s| && s[i].id == id
  }

  ghost predicate DistinctIds(s: seq<Repository>) {
    forall i, j :: 0 <= i < j < |s| ==> s[i].id != s[j].id
  }

  /** The ids of the collection, in stored order. */
  function IdsOf(s: seq<Repository>): (ids: seq<Id>)
    ensures |ids| == |s|
    ensures forall i :: 0 <= i < |s| ==> ids[i] == s[i].id
  {
    seq(|s|, i requires 0 <= i < |s| => s[i].id)
  }

  /** `findIndex(repository => repository.id === id)`: the position of the first record
      carrying `id`, or -1 when there is none. */
  function FirstIndex(s: seq<Repository>, id: Id): (r: int)
    ensures -1 <= r < |s|
    ensures r == -1 <==> !HasId(s, id)
    ensures 0 <= r ==> s[r].id == id && forall j :: 0 <= j < r ==> s[j].id != id
  {
    if s == [] then -1
    else if s[0].id == id then 0
    else
      var k := FirstIndex(s[1..], id);
      if k < 0 then
        assert forall j :: 1 <= j < |s| ==> s[j] == s[1..][j - 1];
        -1
      else k + 1
  }

  /** The linear scan the handlers run: it stops at the first record whose id matches. */
  method FindIndex(s: seq<Repository>, id: Id) returns (index: int)
    ensures index == FirstIndex(s, id)
  {
    index := 0;
    while index < |s|
      invariant 0 <= index <= |s|
      invariant forall j :: 0 <= j < index ==> s[j].id != id
    {
      if s[index].id == id {
        return;
      }
      index := index + 1;
    }
    index := -1;
  }

  /** The record create builds: the given id, the body's fields and no likes. */
  function NewRepository(id: Id, body: CreateBody): Repository {
    Repository(id, Some(body.title), Some(body.url), body.techs, 0)
  }

  /** `{ ...r, title, url, techs }`: the three fields taken from the body (absent when the
      body omits them), `id` and `likes` kept from the record. */
  function Overwrite(r: Repository, body: UpdateBody): Repository {
    r.(title := body.title, url := body.url, techs := body.techs)
  }

  /** `splice(i, 1)`: the collection without position `i`, every other record keeping its
      relative order. */
  function RemoveAt(s: seq<Repository>, i: int): (r: seq<Repository>)
    requires 0 <= i < |s|
    ensures |r| == |s| - 1
    ensures forall j :: 0 <= j < |r| ==> r[j] == s[if j < i then j else j + 1]
  {
    s[..i] + s[i + 1..]
  }

  /** The update handler on collection `s`. */
  function UpdateStep(s: seq<Repository>, id: Id, body: UpdateBody): Step {
    var i := FirstIndex(s, id);
    if i < 0 then Step(NotFound, s)
    else
      var updated := Overwrite(s[i], body);
      Step(Done(updated), s[i := updated])
  }

  /** The delete handler on collection `s`. */
  function DeleteStep(s: seq<Repository>, id: Id): Step {
    var i := FirstIndex(s, id);
    if i < 0 then Step(NotFound, s)
    else Step(Deleted, RemoveAt(s, i))
  }

  /** The like handler on collection `s`: the record `find` returns gets one more like. */
  function LikeStep(s: seq<Repository>, id: Id): Step {
    var i := FirstIndex(s, id);
    if i < 0 then Step(NotFound, s)
    else
      var liked := s[i].(likes := s[i].likes + 1);
      Step(Done(liked), s[i := liked])
  }
}
