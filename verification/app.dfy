/**
 The process-wide repository store and its five request handlers. The collection is changed
 in place, one request at a time; each handler's outcome takes the place of the HTTP response
 it sends.
 */
module App {
  import opened Repositories
  import RepositoryProperties

  class RepositoryStore {
    /** The module-level `repositories` array, in creation order. */
    var repositories: seq<Repository>

    /** The store starts empty when the process starts. */
    constructor ()
      ensures repositories == [] && DistinctIds(repositories)
    {
      repositories := [];
    }

    /** GET /repositories: every record, in stored order, with no change. */
    method List() returns (all: seq<Repository>)
      ensures all == repositories
    {
      all := repositories;
    }

    /** POST /repositories: append a record built from the body, under the id the generator
        supplied, and answer with it. */
    method Create(id: Id, body: CreateBody) returns (created: Repository)
      requires !HasId(repositories, id)
      modifies this
      ensures created == Repository(id, Some(body.title), Some(body.url), body.techs, 0)
      ensures repositories == old(repositories) + [created]
      ensures FirstIndex(repositories, id) == |old(repositories)|
      ensures old(DistinctIds(repositories)) ==> DistinctIds(repositories)
    {
      RepositoryProperties.CreateAppends(repositories, id, body);
      if DistinctIds(repositories) {
        RepositoryProperties.CreateKeepsIdsDistinct(repositories, id, body);
      }
      created := NewRepository(id, body);
      repositories := repositories + [created];
    }

    /** PUT /repositories/:id: overwrite title, url and techs of the first record with that
        id, or report not-found. */
    method Update(id: Id, body: UpdateBody) returns (outcome: Outcome)
      modifies this
      ensures Step(outcome, repositories) == UpdateStep(old(repositories), id, body)
      ensures old(DistinctIds(repositories)) ==> DistinctIds(repositories)
    {
      if DistinctIds(repositories) {
        RepositoryProperties.StepsKeepIdsDistinct(repositories, id, body);
      }
      var index := FindIndex(repositories, id);
      if index < 0 {
        return NotFound;
      }
      var updated := Overwrite(repositories[index], body);
      repositories := repositories[index := updated];
      outcome := Done(updated);
    }

    /** DELETE /repositories/:id: remove the first record with that id, or report
        not-found. */
    method Delete(id: Id) returns (outcome: Outcome)
      modifies this
      ensures Step(outcome, repositories) == DeleteStep(old(repositories), id)
      ensures old(DistinctIds(repositories)) ==> DistinctIds(repositories)
    {
      if DistinctIds(repositories) {
        RepositoryProperties.StepsKeepIdsDistinct(repositories, id, UpdateBody(None, None, None, None));
      }
      var index := FindIndex(repositories, id);
      if index < 0 {
        return NotFound;
      }
      repositories := RemoveAt(repositories, index);
      outcome := Deleted;
    }

    /** POST /repositories/:id/like: add one like to the first record with that id and
        answer with it, or report not-found. */
    method Like(id: Id) returns (outcome: Outcome)
      modifies this
      ensures Step(outcome, repositories) == LikeStep(old(repositories), id)
      ensures old(DistinctIds(repositories)) ==> DistinctIds(repositories)
    {
      if DistinctIds(repositories) {
        RepositoryProperties.StepsKeepIdsDistinct(repositories, id, UpdateBody(None, None, None, None));
      }
      var index := FindIndex(repositories, id);
      if index < 0 {
        return NotFound;
      }
      var liked := repositories[index].(likes := repositories[index].likes + 1);
      repositories := repositories[index := liked];
      outcome := Done(liked);
    }
  }
}
