/**
 * How the event-creation page derives its backend base URL from the
 * `NEXT_PUBLIC_API_URL` setting, and the request URL it posts a new event to.
 */
module ApiUrl {
  import opened Wrappers
  import opened Text

  const DefaultApiUrl: string := "http://localhost:3000/api"
  const EventsEndpoint: string := "/organizer/events"

  predicate HasScheme(s: string) {
    StartsWith(s, "http://") || StartsWith(s, "https://")
  }

  /** The setting with surrounding whitespace and every trailing `/` removed. */
  function Clean(raw: string): (c: string)
    ensures |c| <= |raw|
    ensures c == [] || c[|c| - 1] != '/'
    ensures c == DropTrailing(Trim(raw), '/')
  {
    DropTrailing(Trim(raw), '/')
  }

  /**
   * The scheme repair applied to a cleaned setting: a leading `:` becomes
   * `http://localhost:`; text without a scheme gets `http://localhost:3000`
   * in front of a leading `/`, `http://` when it names a port, and is
   * otherwise replaced by the fallback.
   */
  function Normalise(cleaned: string): (r: string)
    requires cleaned == [] || cleaned[|cleaned| - 1] != '/'
    ensures HasScheme(r)
    ensures r != [] && r[|r| - 1] != '/'
    ensures r == DefaultApiUrl || EndsWith(r, cleaned)
    ensures HasScheme(cleaned) ==> r == cleaned
    ensures StartsWith(cleaned, ":") ==> r == "http://localhost" + cleaned
    ensures !HasScheme(cleaned) && StartsWith(cleaned, "/") ==> r == "http://localhost:3000" + cleaned
    ensures !HasScheme(cleaned) && !StartsWith(cleaned, ":") && !StartsWith(cleaned, "/") && ':' in cleaned
            ==> r == "http://" + cleaned
    ensures !HasScheme(cleaned) && !StartsWith(cleaned, ":") && !StartsWith(cleaned, "/") && ':' !in cleaned
            ==> r == DefaultApiUrl
  {
    if StartsWith(cleaned, ":") then
      assert cleaned[0] == ':';
      assert !StartsWith(cleaned, "http://") && !StartsWith(cleaned, "https://");
      WithPrefixEndsWith("http://localhost", cleaned);
      "http://localhost" + cleaned
    else if HasScheme(cleaned) then
      WithPrefixEndsWith("", cleaned);
      cleaned
    else if StartsWith(cleaned, "/") then
      WithPrefixEndsWith("http://localhost:3000", cleaned);
      "http://localhost:3000" + cleaned
    else if ':' in cleaned then
      WithPrefixEndsWith("http://", cleaned);
      "http://" + cleaned
    else DefaultApiUrl
  }

  /**
   * The base URL for a setting that is unset (`None`) or set to some text.
   * Every result carries an `http://` or `https://` scheme and has no trailing
   * `/`; apart from the fallback it ends with the cleaned setting, and a
   * cleaned setting that already has a scheme is used as it is.
   */
  function GetApiUrl(env: Option<string>): (r: string)
    ensures env == None || env == Some("") ==> r == DefaultApiUrl
    ensures HasScheme(r)
    ensures r != [] && r[|r| - 1] != '/'
    ensures env.Some? ==> r == DefaultApiUrl || EndsWith(r, Clean(env.value))
    ensures env.Some? && HasScheme(Clean(env.value)) ==> r == Clean(env.value)
  {
    match env
    case None => DefaultApiUrl
    case Some(raw) =>
      if raw == "" then
        assert Clean(raw) == [];
        DefaultApiUrl
      else Normalise(Clean(raw))
  }

  /**
   * A setting that is given and not empty is cleaned and then repaired, so
   * `Normalise`'s rules say which prefix or fallback the base URL gets.
   */
  lemma GetApiUrlOfSetting(raw: string)
    requires raw != ""
    ensures GetApiUrl(Some(raw)) == Normalise(Clean(raw))
  {
  }

  /** Putting a scheme-bearing prefix in front of a cleaned setting keeps both guarantees. */
  lemma WithPrefixEndsWith(p: string, c: string)
    requires c == [] || c[|c| - 1] != '/'
    ensures EndsWith(p + c, c)
    ensures HasScheme(p) ==> HasScheme(p + c)
    ensures c != [] ==> (p + c)[|p + c| - 1] == c[|c| - 1]
  {
    EndsWithConcat(p, c);
    if StartsWith(p, "http://") {
      PrefixOfConcat("http://", p, c);
    }
    if StartsWith(p, "https://") {
      PrefixOfConcat("https://", p, c);
    }
  }

  /**
   * Feeding a result back in returns it unchanged, as long as the result does
   * not end in whitespace.
   */
  lemma ApiUrlIdempotent(env: Option<string>)
    requires var r := GetApiUrl(env); !IsWhitespace(r[|r| - 1])
    ensures GetApiUrl(Some(GetApiUrl(env))) == GetApiUrl(env)
  {
    var r := GetApiUrl(env);
    CleanOfFinished(r);
  }

  /** Cleaning a URL with a scheme, no trailing `/` and no trailing whitespace changes nothing. */
  lemma CleanOfFinished(r: string)
    requires HasScheme(r) && r != [] && r[|r| - 1] != '/' && !IsWhitespace(r[|r| - 1])
    ensures Clean(r) == r
  {
    assert r[0] == 'h' by {
      assert StartsWith(r, "http://") || StartsWith(r, "https://");
    }
    TrimOfTrimmed(r);
  }

  /**
   * Whitespace in front of the trailing slashes survives the first pass (the
   * setting is trimmed before the slashes go), so a second pass differs.
   */
  lemma ApiUrlNotIdempotentOnInnerSpace()
    ensures GetApiUrl(Some("http://a /")) == "http://a "
    ensures GetApiUrl(Some("http://a ")) == "http://a"
  {
    var once := "http://a /";
    var twice := "http://a ";
    var thrice := "http://a";
    assert once[..|once| - 1] == twice;
    assert twice[..|twice| - 1] == thrice;
    assert Trim(once) == once by {
      TrimOfTrimmed(once);
    }
    assert Clean(once) == twice;
    assert HasScheme(twice) by {
      assert twice[..7] == "http://";
    }
    assert Trim(twice) == thrice by {
      assert TrimStart(twice) == twice;
      assert IsWhitespace(twice[|twice| - 1]);
      TrimOfTrimmed(thrice);
    }
    assert Clean(twice) == thrice;
    assert HasScheme(thrice) by {
      assert thrice[..7] == "http://";
    }
  }

  /** `${baseUrl}/organizer/events`, with at most one trailing `/` of the base dropped first. */
  function RequestUrl(apiUrl: string): (url: string)
    ensures EndsWith(url, EventsEndpoint)
    ensures var base := url[..|url| - |EventsEndpoint|]; base <= apiUrl && |apiUrl| - 1 <= |base|
    ensures !EndsWith(apiUrl, "/") ==> url == apiUrl + EventsEndpoint
    ensures EndsWith(apiUrl, "/") ==> url == apiUrl[..|apiUrl| - 1] + EventsEndpoint
  {
    var base := if EndsWith(apiUrl, "/") then apiUrl[..|apiUrl| - 1] else apiUrl;
    var url := base + EventsEndpoint;
    assert url[..|url| - |EventsEndpoint|] == base;
    url
  }

  /** Only one trailing slash is dropped: a base ending in `//` keeps one of them. */
  lemma RequestUrlDropsOneSlash(base: string)
    ensures RequestUrl(base + "/") == base + EventsEndpoint
    ensures RequestUrl(base + "//") == base + "/" + EventsEndpoint
  {
    assert (base + "/")[..|base|] == base;
    assert (base + "//")[..|base| + 1] == base + "/";
  }

  /** For a base URL from `GetApiUrl` the slash-dropping never fires. */
  lemma RequestUrlOfApiUrl(env: Option<string>)
    ensures RequestUrl(GetApiUrl(env)) == GetApiUrl(env) + EventsEndpoint
  {
    var r := GetApiUrl(env);
    assert !EndsWith(r, "/") by {
      assert r[|r| - 1..] != "/";
    }
  }
}
