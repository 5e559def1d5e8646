# Repository store

A model of the in-memory store behind a small HTTP service that keeps "repository" records:
a title, a URL, a list of technology tags and a like counter. The service holds the records
in one process-wide ordered collection, in creation order, and five request handlers act on
it:

- **list** answers with the whole collection as stored.
- **create** builds a record under a freshly generated id, with no likes, and appends it.
- **update** finds the first record with the requested id and replaces its `title`, `url`
  and `techs` with the body's values. A field the body omits becomes absent. The record keeps
  its `id` and `likes`, and a `likes` value in the body is accepted but never applied.
- **delete** finds the first record with the id and removes it; the others keep their order.
- **like** finds the first record with the id and adds one to its `likes`.

Update, delete and like fail with a not-found outcome, and change nothing, when no record
has the id.

The model has three modules:

- `Repositories` (repositories.dfy): the record and request-body datatypes, the first-match
  lookup (`FirstIndex`, and the scanning loop `FindIndex` proved equal to it), and the effect
  of update, delete and like on a collection as pure functions (`UpdateStep`, `DeleteStep`,
  `LikeStep`), each giving the handler's outcome and the collection it leaves.
- `RepositoryProperties` (properties.dfy): lemmas about those effects.
- `App` (app.dfy): the class `RepositoryStore`, whose `repositories` field is the collection.
  Its methods change it in place, and each method's `ensures` ties the new collection and
  the outcome to the pure effect of the matching handler.

HTTP statuses become values of `Outcome`: `Done(record)` for a 200 answer carrying a record,
`Deleted` for the empty 204 answer of delete, and `NotFound` for the empty 400 answer to an
unknown id. The id generator becomes an argument of `Create`. Its precondition is that the id
is not already in the store, which is the freshness the generator is relied on for.

## Model

| member | source | states |
|---|---|---|
| `Repositories.FirstIndex` | src/app.js:59 | `findIndex` by id: -1 exactly when no record has the id, otherwise a position holding the id with no earlier position holding it |
| `Repositories.FindIndex` | src/app.js:59 | the linear scan returns exactly the first-match position (or -1) |
| `Repositories.RemoveAt` | src/app.js:75 | `splice(i, 1)` leaves one record fewer: records before `i` stay in place, records after it move down by one |
| `App.RepositoryStore.constructor` | src/app.js:11 | the store starts empty, so its ids are trivially distinct |
| `App.RepositoryStore.List` | src/app.js:13-15 | list returns the whole collection in stored order and changes nothing |
| `App.RepositoryStore.Create` | src/app.js:29-40 | the answer is the new record with the given id, the body's title, url and techs and zero likes; the collection is the old one with that record appended; a lookup by the new id finds it at the end; distinct ids stay distinct |
| `App.RepositoryStore.Update` | src/app.js:56-65 | the new collection and the outcome are exactly `UpdateStep` of the old collection: not-found with no change for an unknown id, otherwise only the first match rewritten (its id and likes kept, title, url and techs taken from the body) and answered; distinct ids stay distinct |
| `App.RepositoryStore.Delete` | src/app.js:69-76 | the new collection and the outcome are exactly `DeleteStep` of the old collection: not-found with no change for an unknown id, otherwise `Deleted` and the first match spliced out; distinct ids stay distinct |
| `App.RepositoryStore.Like` | src/app.js:80-89 | the new collection and the outcome are exactly `LikeStep` of the old collection: not-found with no change for an unknown id, otherwise the first match's likes raised by one and that record answered; distinct ids stay distinct |
| `RepositoryProperties.FirstIndexFollowsIds` | src/app.js:59 | two collections with the same ids in the same order give the same lookup result for every id |
| `RepositoryProperties.CreateAppends` | src/app.js:31-38 | create grows the collection by exactly one, keeps every earlier record, puts the new record (given id, body fields, zero likes) last, and a lookup by its id finds it there |
| `RepositoryProperties.CreateKeepsIdsDistinct` | src/app.js:32-38 | appending a record under a fresh id keeps all ids pairwise distinct |
| `RepositoryProperties.NotFoundChangesNothing` | src/app.js:59-62 | update, delete and like report not-found exactly when no record has the id, and then leave the collection unchanged (checked for delete and like at src/app.js:71-74 and 82-85) |
| `RepositoryProperties.UpdateOverwritesMatch` | src/app.js:57-65 | a successful update changes only the first matching position; that record keeps its id and likes, takes exactly the body's title, url and techs (an omitted one becomes absent), and is the answer |
| `RepositoryProperties.UpdateIgnoresBodyLikes` | src/app.js:50-63 | the body's `likes`, accepted by validation, changes neither the outcome nor the collection |
| `RepositoryProperties.DeleteRemovesMatch` | src/app.js:71-75 | a successful delete reports `Deleted` and removes exactly the first matching record, keeping the relative order of the rest; with distinct ids no record with that id remains |
| `RepositoryProperties.LikeIncrementsMatch` | src/app.js:82-89 | a successful like adds exactly one to the matching record's likes, keeps its other fields, leaves every other record alone and answers with the liked record |
| `RepositoryProperties.UpdateAndLikeKeepIds` | src/app.js:63-87 | update and like leave the sequence of ids unchanged |
| `RepositoryProperties.StepsKeepIdsDistinct` | src/app.js:63-87 | update, delete and like keep pairwise distinct ids pairwise distinct |
| `RepositoryProperties.RepeatedLikes` | src/app.js:82-87 | `n` likes of the same id raise that record's likes by exactly `n`, keep it findable at the same position and touch no other record |
| `RepositoryProperties.DeleteMiddleOfThree` | src/app.js:71-75 | after creating A, B and C with distinct ids, deleting B leaves exactly A then C |
| `RepositoryProperties.UpdateClearsOmittedFields` | src/app.js:57-63 | updating a freshly created record with a title only answers with the new title, an absent url, absent techs and zero likes |

## Left out

- The HTTP layer (routing, JSON body parsing, CORS, status codes and serialising answers) is
  not modelled; handler outcomes are values of `Outcome`.
- Request validation is not modelled. The body types carry only the shape validation
  guarantees (create needs a title and a url, techs are strings, update fields are optional),
  not the content rules (non-empty strings, the URL pattern) or the collection of every
  violation into one error.
- The id generator is not modelled: `Create` takes the id as an argument and requires it to
  be fresh. A random id that collides with a stored one is outside the model.
- `likes` is an unbounded natural number. The source stores it as a JavaScript number, whose
  increments stop being exact above 2^53.
- Record identity is not modelled: records are values. The source's like handler changes
  the found object in place, and its update handler puts a new object at the same position.
  Only the serialised records can be observed, and they are the same in both.
- Concurrency is not modelled: requests are handled one at a time, each running to
  completion.
