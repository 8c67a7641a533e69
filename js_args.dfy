/** How JavaScript turns the argument a service passes into the key a
    repository looks up. Two services pass an argument of the wrong shape,
    and the key they end up with is NaN, which matches no row. */
module JsArgs {
  import opened Common
  import opened Database

  /** The argument values that occur at these call sites. */
  datatype JsValue =
    | Undefined
    | Number(n: int)
    | Object(fields: map<string, JsValue>)

  /** Destructuring `({ name }) => ...`: the named property of an object;
      a number has no such property. */
  function Property(v: JsValue, name: string): (r: JsValue)
    ensures v.Object? && name in v.fields ==> r == v.fields[name]
    ensures !v.Object? ==> r == Undefined
  {
    if v.Object? && name in v.fields then v.fields[name] else Undefined
  }

  /** `Number(v)`, with None standing for NaN (what `Number(undefined)` and
      `Number({ ... })` give). */
  function ToNumber(v: JsValue): (r: Option<int>)
    ensures r.Some? <==> v.Number?
    ensures v.Number? ==> r == Some(v.n)
  {
    match v
    case Number(n) => Some(n)
    case _ => None
  }

  /** The key `findChallengeById({ challengeId })` queries with. */
  function ChallengeLookupKey(arg: JsValue): Option<int> {
    ToNumber(Property(arg, "challengeId"))
  }

  /** The key `findWorkById(workId)` queries with. */
  function WorkLookupKey(arg: JsValue): Option<int> {
    ToNumber(arg)
  }

  /** `findUnique({ where: { id } })` with a key that may be NaN. */
  function FindChallengeByKey(cs: seq<Challenge>, key: Option<int>): (r: Option<Challenge>)
    ensures key.None? ==> r.None?
    ensures key.Some? ==> r == FindChallenge(cs, key.value)
  {
    if key.None? then None else FindChallenge(cs, key.value)
  }

  function FindWorkByKey(ws: seq<Work>, key: Option<int>): (r: Option<Work>)
    ensures key.None? ==> r.None?
    ensures key.Some? ==> r == FindWork(ws, key.value)
  {
    if key.None? then None else FindWork(ws, key.value)
  }

  /** The lookup `createWork` performs: it passes the bare number. */
  function CreateWorkChallengeLookup(cs: seq<Challenge>, challengeId: int): Option<Challenge> {
    FindChallengeByKey(cs, ChallengeLookupKey(Number(challengeId)))
  }

  /** The lookup `createLike` performs: it passes `{ workId }`. */
  function CreateLikeWorkLookup(ws: seq<Work>, workId: int): Option<Work> {
    FindWorkByKey(ws, WorkLookupKey(Object(map["workId" := Number(workId)])))
  }

  /** As written, `createWork` finds no challenge, even one that exists,
      so every submission ends in NotFound. */
  lemma CreateWorkLookupMisses(cs: seq<Challenge>, c: Challenge)
    requires c in cs
    ensures FindChallenge(cs, c.id).Some?
    ensures CreateWorkChallengeLookup(cs, c.id) == None
  {
  }

  /** The intended call, `findChallengeById({ challengeId })`, finds it. */
  lemma WrappedChallengeIdIsFound(cs: seq<Challenge>, challengeId: int)
    ensures FindChallengeByKey(cs, ChallengeLookupKey(Object(map["challengeId" := Number(challengeId)])))
            == FindChallenge(cs, challengeId)
  {
  }

  /** As written, `createLike` finds no work, even one that exists, so
      every like ends in NotFound. */
  lemma CreateLikeLookupMisses(ws: seq<Work>, w: Work)
    requires w in ws
    ensures FindWork(ws, w.id).Some?
    ensures CreateLikeWorkLookup(ws, w.id) == None
  {
  }

  /** The intended call, `findWorkById(workId)`, finds it. */
  lemma BareWorkIdIsFound(ws: seq<Work>, workId: int)
    ensures FindWorkByKey(ws, WorkLookupKey(Number(workId))) == FindWork(ws, workId)
  {
  }
}
