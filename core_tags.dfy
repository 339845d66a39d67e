/**
 * The `active_class` template tag of apps/core/templatetags/core_tags.py.
 *
 * Given the current request, the tag returns its CSS class when the
 * request's view is one of the tag's view names (or starts with one, under
 * prefix matching) and the request's parameters agree with the tag's
 * keyword arguments; otherwise it returns the empty string. A request's
 * parameters are its URL keyword arguments overridden by its query string,
 * leaving out the pagination key "page".
 */
module CoreTags {
  import opened Wrappers

  /** The parameters of a URL match or a query string, after `str(...)` on each key and value. */
  type Params = map<string, string>

  /** `request.resolver_match`: the view name and the URL's keyword arguments. */
  datatype ResolverMatch = ResolverMatch(viewName: string, kwargs: Params)

  /** The parts of a request the tag reads; `get` holds the last value of each query key. */
  datatype Request = Request(resolverMatch: Option<ResolverMatch>, get: Params)

  const DefaultCssClass: string := "active"

  /** The query key that never takes part in the comparison. */
  const PageKey: string := "page"

  predicate IsPrefix(p: string, s: string) { |p| <= |s| && s[..|p|] == p }

  /** `any(view_name.startswith(name) for name in args)`. */
  function AnyIsPrefix(names: seq<string>, viewName: string): (r: bool)
    ensures r <==> exists i :: 0 <= i < |names| && IsPrefix(names[i], viewName)
  {
    if names == [] then false
    else IsPrefix(names[0], viewName) || AnyIsPrefix(names[1..], viewName)
  }

  /** Whether the tag's view names select the current view. */
  function ViewMatches(viewName: string, names: seq<string>, prefixMatch: bool): (r: bool)
    ensures !prefixMatch ==> (r <==> viewName in names)
    ensures prefixMatch ==> (r <==> exists i :: 0 <= i < |names| && IsPrefix(names[i], viewName))
  {
    if prefixMatch then AnyIsPrefix(names, viewName) else viewName in names
  }

  /** The query parameters without "page". */
  function QueryParams(get: Params): (r: Params)
    ensures r.Keys == get.Keys - {PageKey}
    ensures forall k :: k in r ==> r[k] == get[k]
  {
    map k | k in get && k != PageKey :: get[k]
  }

  /** The URL's keyword arguments, updated with the query parameters. */
  function RequestParams(m: ResolverMatch, get: Params): Params
  {
    m.kwargs + QueryParams(get)
  }

  /** Every tag keyword argument is a request parameter with the same value. */
  predicate AgreesWith(tagParams: Params, requestParams: Params)
  {
    forall k :: k in tagParams ==> k in requestParams && requestParams[k] == tagParams[k]
  }

  /** What the tag renders. */
  function ActiveClassOf(request: Option<Request>, names: seq<string>, cssClass: string, prefixMatch: bool, tagParams: Params): (r: string)
    ensures r == "" || r == cssClass
    ensures request.None? || request.value.resolverMatch.None? ==> r == ""
  {
    if request.None? || request.value.resolverMatch.None? then ""
    else
      var m := request.value.resolverMatch.value;
      if m.viewName == [] || !ViewMatches(m.viewName, names, prefixMatch) then ""
      else
        var requestParams := RequestParams(m, request.value.get);
        if tagParams == map[] then (if requestParams == map[] then cssClass else "")
        else if AgreesWith(tagParams, requestParams) then cssClass
        else ""
  }

  /**
   * `active_class`, step by step: the early exits, the parameter merge, and
   * the walk over the tag's keyword arguments that stops at the first one
   * the request does not carry with the same value.
   */
  method ActiveClass(request: Option<Request>, names: seq<string>, cssClass: string, prefixMatch: bool, tagParams: Params)
    returns (r: string)
    ensures r == ActiveClassOf(request, names, cssClass, prefixMatch, tagParams)
  {
    if request.None? || request.value.resolverMatch.None? {
      return "";
    }
    var m := request.value.resolverMatch.value;
    if m.viewName == [] || !ViewMatches(m.viewName, names, prefixMatch) {
      return "";
    }
    var requestParams := m.kwargs;
    requestParams := requestParams + QueryParams(request.value.get);
    if tagParams == map[] {
      if requestParams == map[] {
        return cssClass;
      }
      return "";
    }
    var rest := tagParams.Keys;
    while rest != {}
      invariant rest <= tagParams.Keys
      invariant forall k :: k in tagParams && k !in rest ==> k in requestParams && requestParams[k] == tagParams[k]
      decreases rest
    {
      var k :| k in rest;
      if k !in requestParams || requestParams[k] != tagParams[k] {
        return "";
      }
      rest := rest - {k};
    }
    return cssClass;
  }

  /** The tag renders either nothing or its CSS class, and nothing at all without a matching view. */
  lemma RendersClassOrNothing(request: Option<Request>, names: seq<string>, cssClass: string, prefixMatch: bool, tagParams: Params)
    ensures var r := ActiveClassOf(request, names, cssClass, prefixMatch, tagParams);
      && (r == "" || r == cssClass)
      && (request.None? || request.value.resolverMatch.None? ==> r == "")
      && (request.Some? && request.value.resolverMatch.Some? && cssClass != "" ==>
            (r == cssClass ==> ViewMatches(request.value.resolverMatch.value.viewName, names, prefixMatch)))
  {
  }

  /** The query string overrides the URL's keyword arguments, except under "page", which only the URL can set. */
  lemma {:induction false} QueryOverridesUrl(m: ResolverMatch, get: Params, k: string)
    ensures k != PageKey && k in get ==> k in RequestParams(m, get) && RequestParams(m, get)[k] == get[k]
    ensures k !in get || k == PageKey ==> (k in RequestParams(m, get) <==> k in m.kwargs)
    ensures (k !in get || k == PageKey) && k in m.kwargs ==> RequestParams(m, get)[k] == m.kwargs[k]
  {
    var q := QueryParams(get);
    assert k in q <==> k in get && k != PageKey;
  }

  /** The value of "page" in the query string never changes what the tag renders. */
  lemma {:induction false} PageIsIgnored(m: ResolverMatch, get: Params, page: string, names: seq<string>, cssClass: string,
                                         prefixMatch: bool, tagParams: Params)
    ensures ActiveClassOf(Some(Request(Some(m), get[PageKey := page])), names, cssClass, prefixMatch, tagParams)
         == ActiveClassOf(Some(Request(Some(m), get)), names, cssClass, prefixMatch, tagParams)
  {
    assert QueryParams(get[PageKey := page]) == QueryParams(get);
  }

  /**
   * With keyword arguments on the tag, request parameters the tag does not
   * name are irrelevant: adding one changes nothing.
   */
  lemma {:induction false} ExtraParamsAreIrrelevant(m: ResolverMatch, get: Params, k: string, v: string, names: seq<string>,
                                                    cssClass: string, prefixMatch: bool, tagParams: Params)
    requires tagParams != map[] && k !in tagParams && k != PageKey
    ensures ActiveClassOf(Some(Request(Some(m), get[k := v])), names, cssClass, prefixMatch, tagParams)
         == ActiveClassOf(Some(Request(Some(m), get)), names, cssClass, prefixMatch, tagParams)
  {
    var before := RequestParams(m, get);
    var after := RequestParams(m, get[k := v]);
    var q := QueryParams(get);
    var q' := QueryParams(get[k := v]);
    forall j | j in tagParams
      ensures (j in after <==> j in before) && (j in after ==> after[j] == before[j])
    {
      assert j != k;
      assert j in q' <==> j in q;
      if j in q {
        assert q'[j] == q[j];
      }
    }
  }

  /** Without keyword arguments on the tag, any request parameter at all turns the class off. */
  lemma {:induction false} BareTagNeedsBareRequest(m: ResolverMatch, get: Params, names: seq<string>, cssClass: string, prefixMatch: bool)
    requires m.viewName != [] && ViewMatches(m.viewName, names, prefixMatch)
    ensures ActiveClassOf(Some(Request(Some(m), get)), names, cssClass, prefixMatch, map[]) == cssClass
        <==> (m.kwargs == map[] && get.Keys <= {PageKey}) || cssClass == ""
  {
    var rp := RequestParams(m, get);
    if m.kwargs != map[] {
      var k :| k in m.kwargs;
      assert k in rp;
    } else if !(get.Keys <= {PageKey}) {
      var k :| k in get && k != PageKey;
      assert k in QueryParams(get) && k in rp;
    } else {
      assert QueryParams(get) == map[];
      assert rp == map[];
    }
  }

  /** Prefix matching selects every view the exact match selects. */
  lemma PrefixMatchExtendsExactMatch(viewName: string, names: seq<string>)
    ensures ViewMatches(viewName, names, false) ==> ViewMatches(viewName, names, true)
  {
    if viewName in names {
      var i :| 0 <= i < |names| && names[i] == viewName;
      assert IsPrefix(names[i], viewName);
    }
  }

  /** The navigation bar's product link: active on the product list only when the category filter agrees. */
  lemma CategoryFilterExample()
    ensures ActiveClassOf(Some(Request(Some(ResolverMatch("products:list", map[])), map["category" := "shirts", "page" := "2"])),
                          ["products:list"], DefaultCssClass, false, map["category" := "shirts"]) == "active"
    ensures ActiveClassOf(Some(Request(Some(ResolverMatch("products:list", map[])), map["category" := "hats"])),
                          ["products:list"], DefaultCssClass, false, map["category" := "shirts"]) == ""
    ensures ActiveClassOf(Some(Request(Some(ResolverMatch("products:detail", map["slug" := "shirt"])), map[])),
                          ["products:"], DefaultCssClass, true, map[]) == ""
  {
    var get := map["category" := "shirts", "page" := "2"];
    assert QueryParams(get) == map["category" := "shirts"];
    var hats := map["category" := "hats"];
    assert QueryParams(hats) == hats;
    assert "hats"[0] != "shirts"[0];
    var rp := RequestParams(ResolverMatch("products:list", map[]), hats);
    assert "category" in rp && rp["category"] == "hats";
    var m := ResolverMatch("products:detail", map["slug" := "shirt"]);
    assert "slug" in RequestParams(m, map[]);
  }
}
