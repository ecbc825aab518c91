/**
 Creating organizations: a slug is resolved against the `tenants` table and then
 inserted there, under a unique index and into a column of forty characters.
 Other creations may come in between the two.
 */
module Tenants {
  import opened Common
  import opened Slug

  /** The `tenants` table by its unique column: slug to organization name. */
  type Portals = map<string, string>

  /** The slug column is VARCHAR(40). */
  const SLUG_COLUMN := 40

  datatype CreateError =
    | Unresolved(error: ResolveError)
    | TooLongForColumn
    | TakenMeanwhile
    | TransactionFailed

  /** `resolveSlug(input.slug ?? slugify(input.name))`, as far as the base it starts from. */
  function Base(slug: Option<string>, name: string, fold: string -> string): string {
    Slugify(slug.GetOr(Slugify(name, fold)), fold)
  }

  /** A slug that is asked for is taken as it is when it is in normal form; otherwise the name decides. */
  lemma BaseIs(slug: Option<string>, name: string, fold: string -> string)
    requires FoldsNothing(fold)
    ensures slug.Some? && SlugForm(slug.value) ==> Base(slug, name, fold) == slug.value
    ensures slug.None? ==> Base(slug, name, fold) == Slugify(name, fold)
  {
    if slug.Some? {
      SlugifyFixes(slug.value, fold);
    } else {
      SlugifyTwice(name, fold);
    }
  }

  /** The insertion; `commits` says whether administrator and fields go in as well. */
  function Insert(portals: Portals, slug: string, name: string, commits: bool): (Result<string, CreateError>, Portals) {
    if |slug| > SLUG_COLUMN then (Failure(TooLongForColumn), portals)
    else if slug in portals then (Failure(TakenMeanwhile), portals)
    else if !commits then (Failure(TransactionFailed), portals)
    else (Success(slug), portals[slug := name])
  }

  /** A creation nobody comes in between of. */
  function AfterCreate(portals: Portals, base: string, name: string, commits: bool)
    : (Result<string, CreateError>, Portals)
  {
    match Resolved(base, portals.Keys)
    case Failure(error) => (Failure(Unresolved(error)), portals)
    case Success(slug) => Insert(portals, slug, name, commits)
  }

  class TenantTable {
    var portals: Portals

    constructor ()
      ensures portals == map[]
    {
      portals := map[];
    }

    /** `create` */
    method Create(slug: Option<string>, name: string, fold: string -> string, commits: bool)
      returns (result: Result<string, CreateError>)
      modifies this
      ensures (result, portals) == AfterCreate(old(portals), Base(slug, name, fold), name, commits)
    {
      var resolved := ResolveSlug(slug.GetOr(Slugify(name, fold)), fold, portals.Keys);
      if resolved.Failure? {
        return Failure(Unresolved(resolved.error));
      }
      var found := resolved.value;
      if |found| > SLUG_COLUMN {
        return Failure(TooLongForColumn);
      }
      if found in portals {
        return Failure(TakenMeanwhile);
      }
      if !commits {
        return Failure(TransactionFailed);
      }
      portals := portals[found := name];
      return Success(found);
    }
  }

  // ------------------------------------------------------------------ over a run

  /** Creations on their way: which slug each has found, and not inserted yet. */
  datatype State = State(portals: Portals, found: map<nat, string>)

  datatype Event =
    | Resolve(request: nat, slug: Option<string>, name: string)
    | Store(request: nat, name: string, commits: bool)

  function Step(s: State, e: Event, fold: string -> string): State {
    match e
    case Resolve(request, slug, name) =>
      var resolved := Resolved(Base(slug, name, fold), s.portals.Keys);
      if resolved.Failure? then s else s.(found := s.found[request := resolved.value])
    case Store(request, name, commits) =>
      if request !in s.found then s
      else State(Insert(s.portals, s.found[request], name, commits).1, s.found - {request})
  }

  function Run(s: State, es: seq<Event>, fold: string -> string): State
    decreases |es|
  {
    if |es| == 0 then s else Run(Step(s, es[0], fold), es[1..], fold)
  }

  /** A slug that is valid unless it is too long. */
  predicate ValidIfShort(slug: string) {
    |slug| <= SLUG_COLUMN ==> ValidateSlug(slug) == None
  }

  ghost predicate AllValid(portals: Portals) {
    forall slug :: slug in portals ==> ValidateSlug(slug) == None
  }

  ghost predicate Inv(s: State) {
    AllValid(s.portals) && forall r :: r in s.found ==> ValidIfShort(s.found[r])
  }

  lemma ResolvedIsValid(base: string, taken: set<string>)
    ensures Resolved(base, taken).Success? ==> ValidIfShort(Resolved(base, taken).value)
  {
    if Resolved(base, taken).Success? {
      CandidateLegal(base, FirstFree(base, 0, taken).value);
    }
  }

  lemma StepInv(s: State, e: Event, fold: string -> string)
    requires Inv(s)
    ensures Inv(Step(s, e, fold))
    ensures forall slug :: slug in s.portals ==>
      slug in Step(s, e, fold).portals && Step(s, e, fold).portals[slug] == s.portals[slug]
  {
    if e.Resolve? {
      ResolvedIsValid(Base(e.slug, e.name, fold), s.portals.Keys);
    }
  }

  /**
   However creations interleave: every stored slug is valid, and none is ever
   given to a second organization.
   */
  lemma {:induction false} RunInv(s: State, es: seq<Event>, fold: string -> string)
    requires Inv(s)
    ensures Inv(Run(s, es, fold))
    ensures forall slug :: slug in s.portals ==>
      slug in Run(s, es, fold).portals && Run(s, es, fold).portals[slug] == s.portals[slug]
    decreases |es|
  {
    if |es| > 0 {
      StepInv(s, es[0], fold);
      RunInv(Step(s, es[0], fold), es[1..], fold);
    }
  }

  /** Over every run of creations from an empty table, every portal is reachable under its host name. */
  lemma PortalsReachable(es: seq<Event>, fold: string -> string, rootDomain: string, lower: string -> string)
    requires BeforeColon(lower(rootDomain)) != ""
    ensures forall slug :: slug in Run(State(map[], map[]), es, fold).portals && LowersRoot(slug, rootDomain, lower) ==>
      TenantSlugFromHost(PortalHost(slug, rootDomain), rootDomain, lower) == Some(slug)
  {
    var portals := Run(State(map[], map[]), es, fold).portals;
    RunInv(State(map[], map[]), es, fold);
    forall slug | slug in portals && LowersRoot(slug, rootDomain, lower)
      ensures TenantSlugFromHost(PortalHost(slug, rootDomain), rootDomain, lower) == Some(slug)
    {
      PortalReachable(slug, rootDomain, lower);
    }
  }

  /** The serial creation is the two steps of the run, one right after the other. */
  lemma CreateIsTwoSteps(s: State, request: nat, slug: Option<string>, name: string, commits: bool,
                         fold: string -> string)
    requires request !in s.found
    ensures Run(s, [Resolve(request, slug, name), Store(request, name, commits)], fold)
         == s.(portals := AfterCreate(s.portals, Base(slug, name, fold), name, commits).1)
  {
    var resolve, store := Resolve(request, slug, name), Store(request, name, commits);
    assert [resolve, store][1..] == [store] && [store][1..] == [];
    var next := Step(s, resolve, fold);
    assert Run(s, [resolve, store], fold) == Run(next, [store], fold) == Step(next, store, fold);
    if Resolved(Base(slug, name, fold), s.portals.Keys).Success? {
      assert next.found - {request} == s.found;
    }
  }

  // ------------------------------------------------------------ what a creation does

  predicate IsFirstFree(base: string, k: nat, taken: set<string>) {
    k < ATTEMPTS && Candidate(base, k) !in taken && AllTaken(base, k, taken)
  }

  /** A legal base is stored exactly when its first free candidate fits the column, and under that candidate. */
  lemma CreateStoresIff(portals: Portals, base: string, name: string, commits: bool)
    requires ValidateSlug(base) == None
    ensures var (result, after) := AfterCreate(portals, base, name, commits);
      && (result.Success? <==>
            commits && exists k: nat :: IsFirstFree(base, k, portals.Keys) && |Candidate(base, k)| <= SLUG_COLUMN)
      && (forall k: nat :: result.Success? && IsFirstFree(base, k, portals.Keys) ==>
            after == portals[Candidate(base, k) := name])
      && (result.Failure? ==> after == portals)
  {
    var attempt := FirstFree(base, 0, portals.Keys);
    if attempt.Some? {
      assert IsFirstFree(base, attempt.value, portals.Keys);
      forall k: nat | IsFirstFree(base, k, portals.Keys) ensures k == attempt.value {
        OneFirstFree(base, k, attempt.value, portals.Keys);
      }
    }
  }

  /** No stored slug is long enough to be the tenth candidate of a base of 38 characters. */
  lemma LongNeverTaken(portals: Portals, base: string, k: nat)
    requires AllValid(portals) && k < ATTEMPTS && |Candidate(base, k)| > SLUG_COLUMN
    ensures Candidate(base, k) !in portals
  {
  }

  /**
   Slugs run out exactly for a base of at most 37 characters with all fifty
   candidates taken; a longer base always finds a free one, if only one that does
   not fit.
   */
  lemma UnavailableIff(portals: Portals, base: string, name: string, commits: bool)
    requires AllValid(portals) && ValidateSlug(base) == None
    ensures AfterCreate(portals, base, name, commits).0 == Failure(Unresolved(SlugUnavailable))
       <==> |base| <= 37 && AllTaken(base, ATTEMPTS, portals.Keys)
  {
    if |base| > 37 {
      CandidateLength(base, 9);
      LongNeverTaken(portals, base, 9);
    }
  }

  /**
   The column refuses exactly these: a base of 38 characters whose first nine
   candidates are taken, and a longer one that is taken itself.
   */
  lemma TooLongIff(portals: Portals, base: string, name: string, commits: bool)
    requires AllValid(portals) && ValidateSlug(base) == None
    ensures AfterCreate(portals, base, name, commits).0 == Failure(TooLongForColumn)
       <==> (|base| == 38 && AllTaken(base, 9, portals.Keys)) || (|base| > 38 && base in portals)
  {
    var attempt := FirstFree(base, 0, portals.Keys);
    assert Candidate(base, 0) == base;
    if attempt.Some? {
      CandidateLength(base, attempt.value);
      if |base| == 38 && attempt.value > 9 {
        CandidateLength(base, 9);
        LongNeverTaken(portals, base, 9);
        assert false;
      }
    } else {
      if |base| > 37 {
        CandidateLength(base, 9);
        LongNeverTaken(portals, base, 9);
        assert false;
      }
    }
  }

  // ------------------------------------------------------------------ the failing input

  /** `n` times the letter a. */
  function Letters(n: nat): string {
    seq(n, i => 'a')
  }

  lemma LettersLegal(fold: string -> string)
    requires FoldsNothing(fold)
    ensures ValidateSlug(Letters(39)) == None && Base(None, Letters(39), fold) == Letters(39)
  {
    var name := Letters(39);
    assert name !in RESERVED_SLUGS;
    assert SlugForm(name);
    SlugifyFixes(name, fold);
  }

  /**
   Two organizations with the same name of thirty-nine letters: the first is
   created, the second is refused by the database, although both should register
   without anybody resolving the clash.
   */
  lemma SecondNameRefused(fold: string -> string)
    requires FoldsNothing(fold)
    ensures var name := Letters(39);
      var base := Base(None, name, fold);
      var (first, once) := AfterCreate(map[], base, name, true);
      var (second, twice) := AfterCreate(once, base, name, true);
      && first == Success(name) && once == map[name := name]
      && second == Failure(TooLongForColumn) && twice == once
  {
    LettersLegal(fold);
    var name := Letters(39);
    assert Candidate(name, 0) == name;
    OneFirstFree(name, 0, FirstFree(name, 0, {}).value, {});
    var once: Portals := map[name := name];
    assert AllValid(once);
    TooLongIff(once, name, name, true);
  }
}
