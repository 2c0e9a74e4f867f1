/** The two `country` condition functions and the cache they share (lib/conditions.go). */
module GeoIp {

  /** A cached or looked-up country; both empty means no country. */
  datatype Country = Country(code: string, name: string)

  const NO_COUNTRY := Country("", "")

  datatype Lookup = Found(country: Country) | Failed

  /** Conditions that cannot be evaluated panic. */
  datatype Outcome = Answer(value: bool) | Panic

  /** A list element: a string, or a value that is none and is passed over. */
  datatype Item = Str(text: string) | Other

  /** What the functions are given: the database, the text of an address, upper-casing and trimming. */
  datatype Env<!IP> = Env(db: IP -> Lookup, text: IP -> string, upper: string -> string, trim: string -> string)

  /** The database answers by the address, so two forms of one address with the same text get the same answer. */
  ghost predicate ByText<IP(!new)>(env: Env<IP>)
  {
    forall a, b :: env.text(a) == env.text(b) ==> env.db(a) == env.db(b)
  }

  // ------------------------------------------------------------- answers without a cache

  /** An address the database cannot find has no country. */
  function CountryOf<IP>(env: Env<IP>, ip: IP): Country
  {
    match env.db(ip)
    case Found(c) => c
    case Failed => NO_COUNTRY
  }

  /** A country is named by its code or its name, in any case and with space around it. */
  predicate Names<IP>(env: Env<IP>, country: Country, wanted: string)
  {
    && country != NO_COUNTRY
    && (env.upper(env.trim(wanted)) == env.upper(country.code) || env.upper(env.trim(wanted)) == env.upper(country.name))
  }

  /** A country is named by its own code and name, in whatever writing comes to the same, and by nothing else. */
  lemma NamesExactly<IP>(env: Env<IP>, country: Country, wanted: string)
    requires country != NO_COUNTRY && env.trim(country.code) == country.code && env.trim(country.name) == country.name
    ensures Names(env, country, country.code) && Names(env, country, country.name)
    ensures Names(env, country, wanted) <==> env.upper(env.trim(wanted)) in {env.upper(country.code), env.upper(country.name)}
    ensures !Names(env, NO_COUNTRY, wanted)
  {
  }

  /** Whether some string of the list names the country. */
  predicate NamesAny<IP>(env: Env<IP>, country: Country, items: seq<Item>)
  {
    exists i :: 0 <= i < |items| && items[i].Str? && Names(env, country, items[i].text)
  }

  /** The loop over the list. */
  method AnyNames<IP>(env: Env<IP>, country: Country, items: seq<Item>) returns (found: bool)
    requires country != NO_COUNTRY
    ensures found <==> NamesAny(env, country, items)
  {
    var code, name := env.upper(country.code), env.upper(country.name);
    for i := 0 to |items|
      invariant forall j :: 0 <= j < i && items[j].Str? ==> !Names(env, country, items[j].text)
    {
      if items[i].Str? {
        var input := env.upper(env.trim(items[i].text));
        if code == input || name == input {
          return true;
        }
      }
    }
    return false;
  }

  /** Cached answers are the database's. */
  ghost predicate Sound<IP(!new)>(env: Env<IP>, cache: map<string, Country>)
  {
    forall ip :: env.text(ip) in cache ==> cache[env.text(ip)] == CountryOf(env, ip)
  }

  lemma RememberingIsSound<IP(!new)>(env: Env<IP>, cache: map<string, Country>, ip: IP)
    requires ByText(env) && Sound(env, cache)
    ensures Sound(env, cache[env.text(ip) := CountryOf(env, ip)])
  {
  }

  /** The texts of failed lookups, when this address was looked up too. */
  function Unfound<IP>(env: Env<IP>, unfound: set<string>, ip: IP): set<string>
  {
    unfound + if env.db(ip).Failed? then {env.text(ip)} else {}
  }

  /** The keys stay within the limit when a failure is added, or anything while there is room. */
  lemma RememberingIsBounded<K, V>(cache: map<K, V>, key: K, value: V, unfound: set<K>, more: set<K>, limit: nat)
    requires |cache.Keys - unfound| <= limit && unfound <= more
    ensures |cache.Keys - more| <= limit
    ensures key in more || |cache| < limit ==> |cache[key := value].Keys - more| <= limit
  {
    Smaller(cache.Keys - more, cache.Keys - unfound);
    var after := cache[key := value];
    if key in more {
      Smaller(after.Keys - more, cache.Keys - unfound);
    } else if |cache| < limit {
      assert |after.Keys| == |after| <= |cache| + 1;
      Smaller(after.Keys - more, after.Keys);
    }
  }

  lemma {:induction false} Smaller<T>(a: set<T>, b: set<T>)
    requires a <= b
    ensures |a| <= |b|
  {
    if x :| x in a {
      Smaller(a - {x}, b - {x});
    }
  }

  function Limit(maxSize: int): nat { if maxSize < 0 then 0 else maxSize }

  /** The cache's invariant: cached answers are the database's, and only failures were added beyond the limit. */
  ghost predicate CacheOk<IP(!new)>(env: Env<IP>, cache: map<string, Country>, unfound: set<string>, maxSize: int)
  {
    ByText(env) && Sound(env, cache) && |cache.Keys - unfound| <= Limit(maxSize)
  }

  /** Every failure is cached, a country only while there is room. */
  function CacheAfter<IP>(env: Env<IP>, cache: map<string, Country>, maxSize: int, ip: IP): map<string, Country>
  {
    if env.text(ip) in cache || (env.db(ip).Found? && |cache| >= maxSize) then cache
    else cache[env.text(ip) := CountryOf(env, ip)]
  }

  /** What a lookup leaves in the cache: all that was there, and its own address if it was not found or there was room. */
  lemma CachedIff<IP(!new)>(env: Env<IP>, cache: map<string, Country>, maxSize: int, ip: IP, text: string)
    ensures var after := CacheAfter(env, cache, maxSize, ip);
      && (text in after <==> text in cache || (text == env.text(ip) && (env.db(ip).Failed? || |cache| < maxSize)))
      && (text in cache ==> after[text] == cache[text])
      && (text in after && text !in cache ==> after[text] == CountryOf(env, ip))
  {
  }

  /** An address that the database does not have is in no country, whatever is asked for. */
  lemma UnfoundIsNowhere<IP(!new)>(env: Env<IP>, ip: IP, items: seq<Item>)
    requires env.db(ip).Failed?
    ensures !NamesAny(env, CountryOf(env, ip), items)
  {
  }

  lemma CacheAfterKeeps<IP(!new)>(env: Env<IP>, cache: map<string, Country>, unfound: set<string>, maxSize: int, ip: IP)
    requires CacheOk(env, cache, unfound, maxSize)
    ensures CacheOk(env, CacheAfter(env, cache, maxSize, ip), Unfound(env, unfound, ip), maxSize)
  {
    RememberingIsSound(env, cache, ip);
    RememberingIsBounded(cache, env.text(ip), CountryOf(env, ip), unfound, Unfound(env, unfound, ip), Limit(maxSize));
  }

  /** The cache holds at most the limit and one entry for each address the database could not find. */
  lemma SizeIsBounded<IP(!new)>(env: Env<IP>, cache: map<string, Country>, unfound: set<string>, maxSize: int)
    requires CacheOk(env, cache, unfound, maxSize)
    ensures |cache| <= Limit(maxSize) + |unfound|
  {
    assert cache.Keys == (cache.Keys - unfound) + (cache.Keys * unfound);
    assert |cache.Keys| == |cache|;
    Smaller(cache.Keys * unfound, unfound);
  }

  class CountryCache<IP(!new)> {
    const env: Env<IP>
    const configured: bool
    const maxSize: int
    var cache: map<string, Country>
    /** The texts of the addresses that were looked up and not found so far. */
    ghost var unfound: set<string>

    ghost predicate Valid()
      reads this
    {
      CacheOk(env, cache, unfound, maxSize)
    }

    constructor (env: Env<IP>, configured: bool, maxSize: int)
      requires ByText(env)
      ensures Valid() && this.env == env && this.configured == configured && this.maxSize == maxSize
      ensures cache == map[] && unfound == {}
    {
      this.env, this.configured, this.maxSize := env, configured, maxSize;
      cache, unfound := map[], {};
    }

    /** The lookup both functions begin with: the cache first, then the database. */
    method LookUp(ip: IP) returns (country: Country)
      requires Valid()
      modifies this
      ensures Valid()
      ensures cache == CacheAfter(env, old(cache), maxSize, ip) && unfound == Unfound(env, old(unfound), ip)
      ensures country == CountryOf(env, ip)
    {
      var text := env.text(ip);
      CacheAfterKeeps(env, cache, unfound, maxSize, ip);
      unfound := Unfound(env, unfound, ip);
      if text in cache {
        return cache[text];
      }
      match env.db(ip)
      case Failed =>
        cache := cache[text := NO_COUNTRY];
        return NO_COUNTRY;
      case Found(c) =>
        if |cache| < maxSize {
          cache := cache[text := c];
        }
        return c;
    }

    /** The string overload. */
    method Country(ip: IP, wanted: string) returns (r: Outcome)
      requires Valid()
      modifies this
      ensures Valid()
      ensures r == if configured then Answer(Names(env, CountryOf(env, ip), wanted)) else Panic
      ensures cache == if configured then CacheAfter(env, old(cache), maxSize, ip) else old(cache)
      ensures unfound == if configured then Unfound(env, old(unfound), ip) else old(unfound)
    {
      if !configured {
        return Panic;
      }
      var country := LookUp(ip);
      if country.code == "" && country.name == "" {
        return Answer(false);
      }
      var input := env.upper(env.trim(wanted));
      if env.upper(country.code) == input {
        return Answer(true);
      }
      if env.upper(country.name) == input {
        return Answer(true);
      }
      return Answer(false);
    }

    /** The list overload. */
    method CountryList(ip: IP, items: seq<Item>) returns (r: Outcome)
      requires Valid()
      modifies this
      ensures Valid()
      ensures configured ==> r == Answer(NamesAny(env, CountryOf(env, ip), items))
      ensures !configured ==> r.Panic?
      ensures cache == if configured then CacheAfter(env, old(cache), maxSize, ip) else old(cache)
      ensures unfound == if configured then Unfound(env, old(unfound), ip) else old(unfound)
    {
      if !configured {
        return Panic;
      }
      var country := LookUp(ip);
      if country.code == "" && country.name == "" {
        return Answer(false);
      }
      var found := AnyNames(env, country, items);
      return Answer(found);
    }
  }
}
