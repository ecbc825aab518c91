/**
 Portal slugs: deriving one from a name, checking one, reading one off a host
 name, and finding a free one.
 */
module Slug {
  import opened Common
  import opened Text

  const SLUG_MIN_LENGTH := 3
  const SLUG_MAX_LENGTH := 40

  const RESERVED_SLUGS := [
    "www", "api", "admin", "app", "mail", "smtp", "static", "assets", "cdn", "superadmin",
    "super-admin", "support", "status", "docs", "help", "billing", "auth", "login", "dashboard",
    "kiosk", "test", "staging", "dev"
  ]

  predicate Alnum(c: char) {
    'a' <= c <= 'z' || Digit(c)
  }

  predicate SlugText(s: string) {
    forall i :: 0 <= i < |s| ==> Alnum(s[i]) || s[i] == '-'
  }

  // -------------------------------------------------------------------- slugify

  /** What is left of a text after its leading run of other characters. */
  function SkipOther(s: string): (rest: string)
    ensures |rest| <= |s|
    ensures rest != "" ==> Alnum(rest[0])
  {
    if s != "" && !Alnum(s[0]) then SkipOther(s[1..]) else s
  }

  /** `.replace(/[^a-z0-9]+/g, '-')` */
  function Dashed(s: string): string
    decreases |s|
  {
    if s == "" then ""
    else if Alnum(s[0]) then [s[0]] + Dashed(s[1..])
    else "-" + Dashed(SkipOther(s[1..]))
  }

  function TrimLeft(s: string): string {
    if s != "" && s[0] == '-' then TrimLeft(s[1..]) else s
  }

  function TrimRight(s: string): string {
    if s != "" && s[|s| - 1] == '-' then TrimRight(s[..|s| - 1]) else s
  }

  /** `.replace(/-{2,}/g, '-')` */
  function Collapse(s: string): string {
    if |s| < 2 then s
    else if s[0] == '-' && s[1] == '-' then Collapse(s[1..])
    else [s[0]] + Collapse(s[1..])
  }

  function Cut(s: string): string {
    if |s| <= SLUG_MAX_LENGTH then s else s[..SLUG_MAX_LENGTH]
  }

  /** `fold` stands for Unicode decomposition, dropping diacritics, and lower-casing. */
  function Slugify(input: string, fold: string -> string): string {
    TrimRight(Cut(Collapse(TrimRight(TrimLeft(Dashed(fold(input)))))))
  }

  /** What is known about `fold`: it has nothing to do on slug characters. */
  ghost predicate FoldsNothing(fold: string -> string) {
    forall s :: SlugText(s) ==> fold(s) == s
  }

  predicate NoDouble(s: string) {
    forall i :: 0 <= i < |s| - 1 ==> s[i] != '-' || s[i + 1] != '-'
  }

  /** The normal form: slug characters, no double hyphen, none at either end, not too long. */
  predicate SlugForm(s: string) {
    && SlugText(s) && NoDouble(s) && |s| <= SLUG_MAX_LENGTH
    && (s != "" ==> s[0] != '-' && s[|s| - 1] != '-')
  }

  lemma {:induction false} DashedForm(s: string)
    ensures SlugText(Dashed(s)) && NoDouble(Dashed(s))
    ensures Dashed(s) != "" && s != "" && Alnum(s[0]) ==> Dashed(s)[0] == s[0]
    decreases |s|
  {
    if s == "" {
    } else if Alnum(s[0]) {
      DashedForm(s[1..]);
    } else {
      DashedForm(SkipOther(s[1..]));
    }
  }

  lemma {:induction false} DashedFixes(s: string)
    requires SlugText(s) && NoDouble(s)
    ensures Dashed(s) == s
    decreases |s|
  {
    if s != "" {
      assert NoDouble(s[1..]) by {
        forall i | 0 <= i < |s[1..]| - 1 ensures s[1..][i] != '-' || s[1..][i + 1] != '-' {
          assert s[i + 1] != '-' || s[i + 2] != '-';
        }
      }
      if !Alnum(s[0]) && |s| > 1 {
        assert s[0] == '-' && Alnum(s[1]);
        assert SkipOther(s[1..]) == s[1..];
      }
      DashedFixes(s[1..]);
    }
  }

  lemma {:induction false} TrimLeftForm(s: string)
    requires SlugText(s) && NoDouble(s)
    ensures SlugText(TrimLeft(s)) && NoDouble(TrimLeft(s))
    ensures TrimLeft(s) != "" ==> TrimLeft(s)[0] != '-'
  {
    if s != "" && s[0] == '-' {
      assert NoDouble(s[1..]) by {
        forall i | 0 <= i < |s[1..]| - 1 ensures s[1..][i] != '-' || s[1..][i + 1] != '-' {
          assert s[i + 1] != '-' || s[i + 2] != '-';
        }
      }
      TrimLeftForm(s[1..]);
    }
  }

  lemma {:induction false} TrimRightForm(s: string)
    ensures TrimRight(s) <= s
    ensures TrimRight(s) != "" ==> TrimRight(s)[|TrimRight(s)| - 1] != '-'
  {
    if s != "" && s[|s| - 1] == '-' {
      TrimRightForm(s[..|s| - 1]);
    }
  }

  lemma {:induction false} CollapseFixes(s: string)
    requires NoDouble(s)
    ensures Collapse(s) == s
  {
    if |s| >= 2 {
      assert s[0] != '-' || s[0 + 1] != '-';
      assert NoDouble(s[1..]) by {
        forall i | 0 <= i < |s[1..]| - 1 ensures s[1..][i] != '-' || s[1..][i + 1] != '-' {
          assert s[i + 1] != '-' || s[i + 2] != '-';
        }
      }
      CollapseFixes(s[1..]);
    }
  }

  lemma PrefixForm(s: string, prefix: string)
    requires prefix <= s && SlugText(s) && NoDouble(s)
    ensures SlugText(prefix) && NoDouble(prefix)
    ensures prefix != "" ==> prefix[0] == s[0]
  {
  }

  /** Whatever the name, the result is in normal form. */
  lemma SlugifyForm(input: string, fold: string -> string)
    ensures SlugForm(Slugify(input, fold))
  {
    var dashed := Dashed(fold(input));
    DashedForm(fold(input));
    TrimLeftForm(dashed);
    var left := TrimLeft(dashed);
    TrimRightForm(left);
    PrefixForm(left, TrimRight(left));
    CollapseFixes(TrimRight(left));
    var cut := Cut(TrimRight(left));
    PrefixForm(TrimRight(left), cut);
    TrimRightForm(cut);
    PrefixForm(cut, TrimRight(cut));
  }

  /** The texts `slugify` leaves alone are exactly those in normal form. */
  lemma SlugifyFixes(s: string, fold: string -> string)
    requires FoldsNothing(fold)
    ensures Slugify(s, fold) == s <==> SlugForm(s)
  {
    SlugifyForm(s, fold);
    if SlugForm(s) {
      DashedFixes(s);
      CollapseFixes(s);
    }
  }

  /** Applying it twice, as tenant creation does, is applying it once. */
  lemma SlugifyTwice(input: string, fold: string -> string)
    requires FoldsNothing(fold)
    ensures Slugify(Slugify(input, fold), fold) == Slugify(input, fold)
  {
    SlugifyForm(input, fold);
    SlugifyFixes(Slugify(input, fold), fold);
  }

  // ----------------------------------------------------------------- validation

  datatype SlugError = TooShort | TooLong | InvalidCharacters | Reserved

  /** SLUG_PATTERN: slug characters, a letter or digit at either end. */
  predicate MatchesPattern(s: string) {
    SlugText(s) && s != "" && Alnum(s[0]) && Alnum(s[|s| - 1])
  }

  function ValidateSlug(slug: string): Option<SlugError> {
    if |slug| < SLUG_MIN_LENGTH then Some(TooShort)
    else if |slug| > SLUG_MAX_LENGTH then Some(TooLong)
    else if !MatchesPattern(slug) then Some(InvalidCharacters)
    else if slug in RESERVED_SLUGS then Some(Reserved)
    else None
  }

  /** A derived slug can only be too short or reserved. */
  lemma DerivedSlugErrors(input: string, fold: string -> string)
    ensures var slug := Slugify(input, fold);
      && (slug == "" || MatchesPattern(slug))
      && ValidateSlug(slug) in {None, Some(TooShort), Some(Reserved)}
  {
    SlugifyForm(input, fold);
  }

  // ------------------------------------------------------------------ host names

  /** `.split(':')[0]` */
  function BeforeColon(s: string): string {
    if s == "" || s[0] == ':' then "" else [s[0]] + BeforeColon(s[1..])
  }

  /** `lower` stands for `toLowerCase`. */
  function TenantSlugFromHost(host: string, rootDomain: string, lower: string -> string): Option<string> {
    var cleanHost := BeforeColon(lower(host));
    var cleanRoot := BeforeColon(lower(rootDomain));
    if cleanHost == "" || cleanRoot == "" then None
    else if cleanHost == cleanRoot then None
    else if |cleanHost| < |cleanRoot| + 1 || cleanHost[|cleanHost| - |cleanRoot| - 1..] != "." + cleanRoot then None
    else
      var slug := cleanHost[..|cleanHost| - |cleanRoot| - 1];
      if '.' in slug then None
      else if ValidateSlug(slug).Some? then None
      else Some(slug)
  }

  /** A slug is read off a host exactly when the host is that slug, a dot, and the root. */
  lemma HostIff(host: string, rootDomain: string, lower: string -> string, slug: string)
    ensures var cleanHost, cleanRoot := BeforeColon(lower(host)), BeforeColon(lower(rootDomain));
      TenantSlugFromHost(host, rootDomain, lower) == Some(slug) <==>
        cleanRoot != "" && cleanHost == slug + "." + cleanRoot && ValidateSlug(slug) == None
  {
    var cleanHost, cleanRoot := BeforeColon(lower(host)), BeforeColon(lower(rootDomain));
    if cleanHost == slug + "." + cleanRoot {
      assert |cleanHost| - |cleanRoot| - 1 == |slug|;
      assert cleanHost[|slug|..] == "." + cleanRoot && cleanHost[..|slug|] == slug;
    }
    if TenantSlugFromHost(host, rootDomain, lower) == Some(slug) {
      assert cleanHost == slug + cleanHost[|slug|..];
    }
  }

  lemma {:induction false} ColonFree(s: string, rest: string)
    requires ':' !in s
    ensures BeforeColon(s + rest) == s + BeforeColon(rest)
  {
    if s == "" {
      assert s + rest == rest;
    } else {
      assert (s + rest)[1..] == s[1..] + rest;
      ColonFree(s[1..], rest);
    }
  }

  /** The host a tenant's portal is shown under. */
  function PortalHost(slug: string, rootDomain: string): string {
    slug + "." + rootDomain
  }

  /** Lower-casing a portal host leaves a lower-case slug alone. */
  predicate LowersRoot(slug: string, rootDomain: string, lower: string -> string) {
    lower(PortalHost(slug, rootDomain)) == PortalHost(slug, lower(rootDomain))
  }

  /** The root domain may carry a port, as the default one does, and be in any case. */
  lemma PortalHostParts(slug: string, rootDomain: string, lower: string -> string)
    requires SlugText(slug) && LowersRoot(slug, rootDomain, lower)
    ensures BeforeColon(lower(PortalHost(slug, rootDomain))) == slug + "." + BeforeColon(lower(rootDomain))
  {
    ColonFree(slug + ".", lower(rootDomain));
  }

  /**
   A slug is read back off its own portal host exactly when it is valid, whatever
   the root domain: with or without a port, in any case.
   */
  lemma PortalReachable(slug: string, rootDomain: string, lower: string -> string)
    requires SlugText(slug) && LowersRoot(slug, rootDomain, lower) && BeforeColon(lower(rootDomain)) != ""
    ensures TenantSlugFromHost(PortalHost(slug, rootDomain), rootDomain, lower) == Some(slug)
       <==> ValidateSlug(slug) == None
  {
    PortalHostParts(slug, rootDomain, lower);
    HostIff(PortalHost(slug, rootDomain), rootDomain, lower, slug);
  }

  /**
   Building a tenant's host name and reading the slug back is the identity, also
   when the request names a port of its own behind the root.
   */
  lemma HostRoundTrip(slug: string, rootDomain: string, port: string, lower: string -> string)
    requires ValidateSlug(slug) == None && BeforeColon(lower(rootDomain)) != ""
    ensures LowersRoot(slug, rootDomain, lower) ==>
      TenantSlugFromHost(PortalHost(slug, rootDomain), rootDomain, lower) == Some(slug)
    ensures var asked := PortalHost(slug, BeforeColon(rootDomain)) + ":" + port;
      lower(asked) == PortalHost(slug, BeforeColon(lower(rootDomain))) + ":" + port ==>
        TenantSlugFromHost(asked, rootDomain, lower) == Some(slug)
  {
    if LowersRoot(slug, rootDomain, lower) {
      PortalReachable(slug, rootDomain, lower);
    }
    var asked := PortalHost(slug, BeforeColon(rootDomain)) + ":" + port;
    var root := BeforeColon(lower(rootDomain));
    if lower(asked) == PortalHost(slug, root) + ":" + port {
      BeforeColonStops(lower(rootDomain));
      assert PortalHost(slug, root) + ":" + port == PortalHost(slug, root) + (":" + port);
      ColonFree(PortalHost(slug, root), ":" + port);
      HostIff(asked, rootDomain, lower, slug);
    }
  }

  lemma {:induction false} BeforeColonStops(s: string)
    ensures ':' !in BeforeColon(s)
  {
    if s != "" && s[0] != ':' {
      BeforeColonStops(s[1..]);
    }
  }

  // -------------------------------------------------------------- finding a free one

  const ATTEMPTS := 50

  /** The base itself, then base-2, base-3, and so on. */
  function Candidate(base: string, attempt: nat): string {
    if attempt == 0 then base else base + "-" + Decimal(attempt + 1)
  }

  lemma CandidatesDiffer(base: string, i: nat, j: nat)
    requires Candidate(base, i) == Candidate(base, j)
    ensures i == j
  {
    DecimalDigits(i + 1);
    DecimalDigits(j + 1);
    if i > 0 && j > 0 {
      assert Candidate(base, i)[|base| + 1..] == Decimal(i + 1);
      assert Candidate(base, j)[|base| + 1..] == Decimal(j + 1);
      DecimalInjective(i + 1, j + 1);
    }
  }

  datatype ResolveError = InvalidSlug(reason: SlugError) | SlugUnavailable

  predicate AllTaken(base: string, n: nat, taken: set<string>) {
    forall k: nat :: k < n ==> Candidate(base, k) in taken
  }

  /** The number of the first free candidate, counting from `from`. */
  function FirstFree(base: string, from: nat, taken: set<string>): (attempt: Option<nat>)
    requires from <= ATTEMPTS && AllTaken(base, from, taken)
    ensures attempt.None? <==> AllTaken(base, ATTEMPTS, taken)
    ensures attempt.Some? ==>
      attempt.value < ATTEMPTS && Candidate(base, attempt.value) !in taken && AllTaken(base, attempt.value, taken)
    decreases ATTEMPTS - from
  {
    if from == ATTEMPTS then None
    else if Candidate(base, from) !in taken then Some(from)
    else FirstFree(base, from + 1, taken)
  }

  /** What `resolveSlug` answers for a base. */
  function Resolved(base: string, taken: set<string>): Result<string, ResolveError> {
    match ValidateSlug(base)
    case Some(reason) => Failure(InvalidSlug(reason))
    case None =>
      var attempt := FirstFree(base, 0, taken);
      if attempt.None? then Failure(SlugUnavailable) else Success(Candidate(base, attempt.value))
  }

  lemma OneFirstFree(base: string, j: nat, k: nat, taken: set<string>)
    requires AllTaken(base, j, taken) && AllTaken(base, k, taken)
    requires Candidate(base, j) !in taken && Candidate(base, k) !in taken
    ensures j == k
  {
  }

  function CandidateSet(base: string, n: nat): set<string> {
    if n == 0 then {} else CandidateSet(base, n - 1) + {Candidate(base, n - 1)}
  }

  lemma {:induction false} CandidatesCount(base: string, n: nat)
    ensures |CandidateSet(base, n)| == n
    ensures forall s :: s in CandidateSet(base, n) ==> exists k: nat :: k < n && s == Candidate(base, k)
  {
    if n > 0 {
      CandidatesCount(base, n - 1);
      if Candidate(base, n - 1) in CandidateSet(base, n - 1) {
        var k: nat :| k < n - 1 && Candidate(base, n - 1) == Candidate(base, k);
        CandidatesDiffer(base, n - 1, k);
        assert false;
      }
    }
  }

  lemma {:induction false} SubsetSize(a: set<string>, b: set<string>)
    requires a <= b
    ensures |a| <= |b|
  {
    assert b == a + (b - a);
  }

  /** Running out means that at least fifty slugs are taken. */
  lemma FiftyTaken(base: string, taken: set<string>)
    requires AllTaken(base, ATTEMPTS, taken)
    ensures |taken| >= ATTEMPTS
  {
    CandidatesCount(base, ATTEMPTS);
    forall s | s in CandidateSet(base, ATTEMPTS) ensures s in taken {
      var k: nat :| k < ATTEMPTS && s == Candidate(base, k);
    }
    SubsetSize(CandidateSet(base, ATTEMPTS), taken);
  }

  lemma ReservedEndInLetter(s: string)
    requires s in RESERVED_SLUGS
    ensures s != "" && !Digit(s[|s| - 1])
  {
    var i :| 0 <= i < |RESERVED_SLUGS| && RESERVED_SLUGS[i] == s;
  }

  /**
   With a legal base, a numbered candidate is legal too unless the suffix made it
   too long; with at most 37 characters in the base it never does.
   */
  lemma CandidateLegal(base: string, attempt: nat)
    requires ValidateSlug(base) == None && attempt < ATTEMPTS
    ensures ValidateSlug(Candidate(base, attempt)) == None <==> |Candidate(base, attempt)| <= SLUG_MAX_LENGTH
    ensures |base| <= 37 ==> ValidateSlug(Candidate(base, attempt)) == None
  {
    if attempt > 0 {
      var digits, slug := Decimal(attempt + 1), Candidate(base, attempt);
      DecimalDigits(attempt + 1);
      assert slug[|slug| - 1] == digits[|digits| - 1];
      if slug in RESERVED_SLUGS {
        ReservedEndInLetter(slug);
        assert false;
      }
    }
  }

  /** `resolveSlug`: the first free candidate, against the slugs in the tenants table. */
  method ResolveSlug(candidate: string, fold: string -> string, taken: set<string>)
    returns (result: Result<string, ResolveError>)
    ensures var base := Slugify(candidate, fold);
      match ValidateSlug(base)
      case Some(reason) => result == Failure(InvalidSlug(reason))
      case None =>
        && (result == Failure(SlugUnavailable) <==> AllTaken(base, ATTEMPTS, taken))
        && (result != Failure(SlugUnavailable) ==>
              exists k: nat :: k < ATTEMPTS && result == Success(Candidate(base, k))
                && Candidate(base, k) !in taken && AllTaken(base, k, taken))
    ensures result == Resolved(Slugify(candidate, fold), taken)
    ensures result == Failure(SlugUnavailable) ==> |taken| >= ATTEMPTS
    ensures result.Success? ==>
      && (ValidateSlug(result.value) == None <==> |result.value| <= SLUG_MAX_LENGTH)
      && (|Slugify(candidate, fold)| <= 37 ==> ValidateSlug(result.value) == None)
  {
    var base := Slugify(candidate, fold);
    var invalid := ValidateSlug(base);
    if invalid.Some? {
      return Failure(InvalidSlug(invalid.value));
    }
    var attempt := 0;
    while attempt < ATTEMPTS
      invariant 0 <= attempt <= ATTEMPTS && AllTaken(base, attempt, taken)
    {
      var slug := Candidate(base, attempt);
      if slug !in taken {
        CandidateLegal(base, attempt);
        OneFirstFree(base, attempt, FirstFree(base, 0, taken).value, taken);
        return Success(slug);
      }
      attempt := attempt + 1;
    }
    FiftyTaken(base, taken);
    return Failure(SlugUnavailable);
  }

  lemma CandidateText(base: string, attempt: nat)
    requires SlugText(base)
    ensures SlugText(Candidate(base, attempt))
  {
    DecimalDigits(attempt + 1);
  }

  /** A candidate is read back off its own portal host exactly when it has at most forty characters. */
  lemma CandidateReachable(base: string, attempt: nat, rootDomain: string, lower: string -> string)
    requires ValidateSlug(base) == None && attempt < ATTEMPTS
    requires LowersRoot(Candidate(base, attempt), rootDomain, lower) && BeforeColon(lower(rootDomain)) != ""
    ensures var slug := Candidate(base, attempt);
      TenantSlugFromHost(PortalHost(slug, rootDomain), rootDomain, lower) == Some(slug)
      <==> |slug| <= SLUG_MAX_LENGTH
  {
    CandidateText(base, attempt);
    CandidateLegal(base, attempt);
    PortalReachable(Candidate(base, attempt), rootDomain, lower);
  }

  /** The numeric suffix takes two characters up to the ninth candidate, three from the tenth on. */
  lemma CandidateLength(base: string, attempt: nat)
    requires attempt < ATTEMPTS
    ensures |Candidate(base, attempt)| == |base| + (if attempt == 0 then 0 else if attempt < 9 then 2 else 3)
  {
    if attempt >= 9 {
      assert |Decimal((attempt + 1) / 10)| == 1;
    }
  }
}
