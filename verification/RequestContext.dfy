/**
 The per-request context: the platform-scope flag is set for the length of a
 callback and put back afterwards, also when the callback throws.
 */
module RequestContext {
  import opened Common
  import TenantScope
  import ScopedClient

  /** Request code as far as the flag can see it: awaits that nest, never overlap. */
  datatype Code =
    | Query(model: string)
    | Throw
    | Then(first: Code, second: Code)
    | Catch(body: Code)
    | AsPlatform(body: Code)

  /** A query, and whether it ran with the platform scope on. */
  datatype Seen = Seen(model: string, platform: bool)

  /** What the code does if the flag is simply "inside asPlatform or not". */
  function Lexical(code: Code, inside: bool): (seq<Seen>, bool) {
    match code
    case Query(model) => ([Seen(model, inside)], false)
    case Throw => ([], true)
    case Then(first, second) =>
      var (seen, threw) := Lexical(first, inside);
      if threw then (seen, true)
      else
        var (more, threw') := Lexical(second, inside);
        (seen + more, threw')
    case Catch(body) => (Lexical(body, inside).0, false)
    case AsPlatform(body) => Lexical(body, true)
  }

  class RequestStore {
    var tenantId: Option<string>
    var platformScope: Option<bool>

    constructor (tenantId: Option<string>)
      ensures this.tenantId == tenantId && platformScope == None
    {
      this.tenantId, platformScope := tenantId, None;
    }

    /** `RequestContext.isPlatformScope` */
    predicate IsPlatformScope()
      reads this
    {
      platformScope == Some(true)
    }

    /**
     Running request code against the mutable flag. `asPlatform` saves it, sets it,
     and restores it on every way out, so the flag always means what the nesting
     says, and is afterwards what it was before.
     */
    method Run(code: Code) returns (seen: seq<Seen>, threw: bool)
      modifies this`platformScope
      ensures platformScope == old(platformScope)
      ensures (seen, threw) == Lexical(code, old(IsPlatformScope()))
      decreases code
    {
      match code
      case Query(model) =>
        return [Seen(model, IsPlatformScope())], false;
      case Throw =>
        return [], true;
      case Then(first, second) =>
        seen, threw := Run(first);
        if !threw {
          var more, threw' := Run(second);
          return seen + more, threw';
        }
      case Catch(body) =>
        seen, threw := Run(body);
        threw := false;
      case AsPlatform(body) =>
        var previous := platformScope;
        platformScope := Some(true);
        seen, threw := Run(body);
        platformScope := previous;
    }
  }

  /** Does the code throw, with nothing inside it to catch that? */
  predicate Throws(code: Code) {
    match code
    case Query(_) => false
    case Throw => true
    case Then(first, second) => Throws(first) || Throws(second)
    case Catch(_) => false
    case AsPlatform(body) => Throws(body)
  }

  /** The queries that are reached, each with the scope on exactly if it stands in at least one `asPlatform`. */
  function Nested(code: Code, depth: nat): seq<Seen> {
    match code
    case Query(model) => [Seen(model, depth > 0)]
    case Throw => []
    case Then(first, second) => Nested(first, depth) + if Throws(first) then [] else Nested(second, depth)
    case Catch(body) => Nested(body, depth)
    case AsPlatform(body) => Nested(body, depth + 1)
  }

  /** What runs, and with which flag, is decided by throws and nesting depth alone. */
  lemma {:induction false} LexicalIsNested(code: Code, depth: nat)
    ensures Lexical(code, depth > 0) == (Nested(code, depth), Throws(code))
  {
    match code
    case Query(_) =>
    case Throw =>
    case Then(first, second) =>
      LexicalIsNested(first, depth);
      LexicalIsNested(second, depth);
      assert Nested(first, depth) + [] == Nested(first, depth);
    case Catch(body) => LexicalIsNested(body, depth);
    case AsPlatform(body) => LexicalIsNested(body, depth + 1);
  }

  /** No query of the code is written inside an `asPlatform`. */
  predicate NeverPlatform(code: Code) {
    match code
    case Query(_) => true
    case Throw => true
    case Then(first, second) => NeverPlatform(first) && NeverPlatform(second)
    case Catch(body) => NeverPlatform(body)
    case AsPlatform(_) => false
  }

  /** A query written inside an `asPlatform` runs with the scope on; without one it runs with the scope off. */
  lemma {:induction false} NestingDecides(code: Code, inside: bool, q: Seen)
    requires q in Lexical(code, inside).0
    ensures inside ==> q.platform
    ensures !inside && NeverPlatform(code) ==> !q.platform
  {
    match code
    case Query(_) =>
    case Throw =>
    case Then(first, second) =>
      if q in Lexical(first, inside).0 {
        NestingDecides(first, inside, q);
      } else {
        NestingDecides(second, inside, q);
      }
    case Catch(body) => NestingDecides(body, inside, q);
    case AsPlatform(body) => NestingDecides(body, true, q);
  }

  /**
   What the scoped client answers to a query of the code: on a tenant-owned model
   it refuses for the platform scope exactly what is written under `asPlatform`,
   and for a missing tenant exactly the rest of a request without one. Queries on
   other models are never refused.
   */
  lemma ClientSeesNesting(code: Code, inside: bool, q: Seen, tenantId: Option<string>, call: TenantScope.Call,
                          table: TenantScope.Table, session: Option<string>, hasDelegate: bool,
                          ids: seq<TenantScope.RowId>)
    requires q in Lexical(code, inside).0 && call.model == q.model && |ids| == TenantScope.IdsNeeded(call.args)
    ensures var answer := ScopedClient.CallEffect(
          table, session, TenantScope.Store(tenantId, q.platform), call, hasDelegate, ids);
      var owned := q.model in TenantScope.TENANT_SCOPED_MODELS;
      && (answer == Failure(TenantScope.PlatformScopeOnAppClient) <==> owned && q.platform)
      && (answer == Failure(TenantScope.MissingTenantContext) <==>
            owned && !q.platform && tenantId.GetOr("") == "")
      && q in Nested(code, if inside then 1 else 0)
      && (inside && owned ==> answer == Failure(TenantScope.PlatformScopeOnAppClient))
      && (!inside && NeverPlatform(code) && tenantId.GetOr("") != "" ==> answer.Success?)
  {
    NestingDecides(code, inside, q);
    LexicalIsNested(code, if inside then 1 else 0);
  }
}
