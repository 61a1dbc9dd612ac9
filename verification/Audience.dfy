/** Tenant slugs and the OIDC audiences that name them. */
module Audience {
  import opened Common

  const SLUG_MAX_LEN := 39

  predicate IsSlugChar(c: char) {
    'a' <= c <= 'z' || '0' <= c <= '9' || c == '-'
  }

  predicate IsValidSlug(s: string) {
    && 1 <= |s| <= SLUG_MAX_LEN
    && s[0] != '-' && s[|s| - 1] != '-'
    && forall i :: 0 <= i < |s| ==> IsSlugChar(s[i])
  }

  /** A base URL without its trailing slashes. */
  function TrimSlashes(s: string): (r: string)
    ensures r <= s && (r != [] ==> r[|r| - 1] != '/')
    ensures forall i :: |r| <= i < |s| ==> s[i] == '/'
  {
    if s == [] || s[|s| - 1] != '/' then s else TrimSlashes(s[..|s| - 1])
  }

  function Prefix(baseUrl: string): string {
    TrimSlashes(baseUrl) + "/o/"
  }

  function TenantAudience(baseUrl: string, slug: string): string {
    Prefix(baseUrl) + slug
  }

  function Slashes(n: nat): string {
    seq(n, _ => '/')
  }

  /** The audience text: the base URL up to its trailing slashes, `/o/`, and the slug. */
  lemma {:induction false} AudienceText(root: string, n: nat, slug: string)
    requires root == [] || root[|root| - 1] != '/'
    ensures TenantAudience(root + Slashes(n), slug) == root + "/o/" + slug
  {
    var url := root + Slashes(n);
    if n == 0 {
      assert url == root;
    } else {
      assert url[..|url| - 1] == root + Slashes(n - 1);
      AudienceText(root, n - 1, slug);
    }
  }

  /** A slug: 1 to 39 lower-case letters, digits and inner hyphens, by ASCII code. */
  lemma SlugRule(s: string)
    ensures IsValidSlug(s) <==>
            && 0 < |s| < 40
            && forall i :: 0 <= i < |s| ==>
                 var code := s[i] as int;
                 0x61 <= code <= 0x7A || 0x30 <= code <= 0x39 || (code == 0x2D && 0 < i < |s| - 1)
  {
  }

  function SlugFromAudience(baseUrl: string, audience: string): Option<string> {
    var prefix := Prefix(baseUrl);
    if !(prefix <= audience) then None
    else
      var rest := audience[|prefix|..];
      var slug := if rest != [] && rest[|rest| - 1] == '/' then rest[..|rest| - 1] else rest;
      if IsValidSlug(slug) then Some(slug) else None
  }

  /** An audience names a slug exactly when it is that tenant's audience, with at most
      one extra slash at the end. */
  lemma AudienceNamesExactlyItsTenant(baseUrl: string, audience: string, slug: string)
    ensures SlugFromAudience(baseUrl, audience) == Some(slug) <==>
            && IsValidSlug(slug)
            && (audience == TenantAudience(baseUrl, slug) || audience == TenantAudience(baseUrl, slug) + "/")
  {
    var prefix := Prefix(baseUrl);
    if prefix <= audience {
      assert audience == prefix + audience[|prefix|..];
      var rest := audience[|prefix|..];
      if rest != [] && rest[|rest| - 1] == '/' {
        assert rest == rest[..|rest| - 1] + "/";
      }
    }
    if IsValidSlug(slug) {
      assert (prefix + slug)[|prefix|..] == slug;
      assert (prefix + slug + "/")[|prefix|..] == slug + "/";
      assert (slug + "/")[..|slug|] == slug;
      assert slug[|slug| - 1] != '/';
    }
  }

  /** No two tenants share an audience, on any base URL. */
  lemma OneAudienceOneTenant(baseUrl: string, a: string, b: string)
    requires IsValidSlug(a) && IsValidSlug(b)
    requires TenantAudience(baseUrl, a) == TenantAudience(baseUrl, b)
          || TenantAudience(baseUrl, a) + "/" == TenantAudience(baseUrl, b)
    ensures a == b
  {
    var audience := TenantAudience(baseUrl, b);
    AudienceNamesExactlyItsTenant(baseUrl, audience, a);
    AudienceNamesExactlyItsTenant(baseUrl, audience, b);
  }

  // ---------------------------------------------------------------------------
  // Resolving a token's audiences
  // ---------------------------------------------------------------------------

  datatype Resolution = Resolved(slug: string, audience: string) | Ambiguous | Unknown

  /** The slugs the audiences name, in order; audiences that name none are left out. */
  function Named(baseUrl: string, audiences: seq<string>): seq<(string, string)> {
    if audiences == [] then []
    else
      var slug := SlugFromAudience(baseUrl, audiences[0]);
      (if slug.Some? then [(slug.value, audiences[0])] else []) + Named(baseUrl, audiences[1..])
  }

  /** All of them name one slug. */
  ghost predicate Agree(named: seq<(string, string)>) {
    forall i :: 0 <= i < |named| ==> named[i].0 == named[0].0
  }

  lemma NothingNamed(baseUrl: string)
    ensures Named(baseUrl, []) == [] && Agree([])
  {
  }

  lemma AgreeOneMore(done: seq<(string, string)>, pair: (string, string))
    requires Agree(done) && (done == [] || done[0].0 == pair.0)
    ensures Agree(done + [pair])
  {
  }

  lemma Disagree(done: seq<(string, string)>, pair: (string, string), more: seq<(string, string)>)
    requires done != [] && done[0].0 != pair.0
    ensures !Agree(done + ([pair] + more)) && done + ([pair] + more) != []
  {
    var all := done + ([pair] + more);
    assert all[|done|] == pair && all[0] == done[0];
  }

  /** The loop over a token's audiences. It resolves exactly when the audiences that name
      any slug all name the same one, and then it returns the first of them. */
  method SlugOf(baseUrl: string, audiences: seq<string>) returns (r: Resolution)
    ensures var named := Named(baseUrl, audiences);
            && (r.Resolved? <==> named != [] && Agree(named))
            && (r.Resolved? ==> (r.slug, r.audience) == named[0])
            && (r.Unknown? <==> named == [])
  {
    hide SlugFromAudience, Named, Agree;
    var found: Option<(string, string)> := None;
    var i := 0;
    ghost var done: seq<(string, string)> := [];
    assert audiences[0..] == audiences;
    NothingNamed(baseUrl);
    while i < |audiences|
      invariant i <= |audiences| && Named(baseUrl, audiences) == done + Named(baseUrl, audiences[i..])
      invariant Agree(done)
      invariant if done == [] then found.None? else found == Some(done[0])
    {
      NamedUnrolls(baseUrl, audiences, i);
      var slug := SlugFromAudience(baseUrl, audiences[i]);
      if slug.Some? {
        if found.None? {
          found := Some((slug.value, audiences[i]));
        } else if found.value.0 != slug.value {
          Disagree(done, (slug.value, audiences[i]), Named(baseUrl, audiences[i + 1..]));
          return Ambiguous;
        }
        ghost var pair := (slug.value, audiences[i]);
        Associative(done, [pair], Named(baseUrl, audiences[i + 1..]));
        AgreeOneMore(done, pair);
        done := done + [pair];
      }
      i := i + 1;
    }
    assert audiences[i..] == [] && done + [] == done;
    if found.None? {
      return Unknown;
    }
    return Resolved(found.value.0, found.value.1);
  }

  lemma NamedUnrolls(baseUrl: string, audiences: seq<string>, i: nat)
    requires i < |audiences|
    ensures var slug := SlugFromAudience(baseUrl, audiences[i]);
            Named(baseUrl, audiences[i..]) ==
            (if slug.Some? then [(slug.value, audiences[i])] else []) + Named(baseUrl, audiences[i + 1..])
  {
    hide SlugFromAudience;
    assert audiences[i..][0] == audiences[i] && audiences[i..][1..] == audiences[i + 1..];
  }

  /** The resolution as a function of the named slugs. */
  ghost function ResolvedSlug(named: seq<(string, string)>): Option<string> {
    if named != [] && Agree(named) then Some(named[0].0) else None
  }

  lemma {:induction false} NamedMembers(baseUrl: string, audiences: seq<string>, slug: string, audience: string)
    ensures (slug, audience) in Named(baseUrl, audiences) <==>
            audience in audiences && SlugFromAudience(baseUrl, audience) == Some(slug)
  {
    hide SlugFromAudience;
    if audiences != [] {
      NamedMembers(baseUrl, audiences[1..], slug, audience);
      assert audiences == [audiences[0]] + audiences[1..];
    }
  }

  lemma ResolvedSlugMeans(named: seq<(string, string)>, slug: string)
    ensures ResolvedSlug(named) == Some(slug) <==>
            (exists p :: p in named) && (forall p :: p in named ==> p.0 == slug)
  {
    if named != [] {
      assert named[0] in named;
    }
    forall p | p in named && ResolvedSlug(named) == Some(slug)
      ensures p.0 == slug
    {
      var i :| 0 <= i < |named| && named[i] == p;
    }
  }

  /** The tenant a token resolves to does not depend on the order of its audiences. */
  lemma OrderDoesNotMatter(baseUrl: string, a: seq<string>, b: seq<string>)
    requires forall audience :: audience in a <==> audience in b
    ensures ResolvedSlug(Named(baseUrl, a)) == ResolvedSlug(Named(baseUrl, b))
  {
    hide SlugFromAudience, Named;
    forall slug, audience
      ensures (slug, audience) in Named(baseUrl, a) <==> (slug, audience) in Named(baseUrl, b)
    {
      NamedMembers(baseUrl, a, slug, audience);
      NamedMembers(baseUrl, b, slug, audience);
    }
    forall p: (string, string)
      ensures p in Named(baseUrl, a) <==> p in Named(baseUrl, b)
    {
      assert p == (p.0, p.1);
    }
    var ra, rb := ResolvedSlug(Named(baseUrl, a)), ResolvedSlug(Named(baseUrl, b));
    if ra.Some? { ResolvedSlugMeans(Named(baseUrl, a), ra.value); ResolvedSlugMeans(Named(baseUrl, b), ra.value); }
    if rb.Some? { ResolvedSlugMeans(Named(baseUrl, a), rb.value); ResolvedSlugMeans(Named(baseUrl, b), rb.value); }
  }
}
