/** Per-hostname certificates: which file they live in and how the in-memory cache fills. */
module SniCache {
  import opened Text

  const MAX_SNI_CACHE_SIZE := 1000

  /** A loaded certificate with its key. */
  datatype CertifiedKey = CertifiedKey(id: nat)

  // ---------------------------------------------------------------------------
  // Hostnames and file names
  // ---------------------------------------------------------------------------

  predicate IsHostChar(c: char) {
    'a' <= c <= 'z' || 'A' <= c <= 'Z' || '0' <= c <= '9' || c == '-'
  }

  function SanitizeHostnameForFilename(hostname: string): string {
    if hostname == "" then ""
    else [if IsHostChar(hostname[0]) then hostname[0] else '_'] + SanitizeHostnameForFilename(hostname[1..])
  }

  predicate ValidateSniHostname(hostname: string) {
    && hostname != "" && Utf8Len(hostname) <= 253
    && '/' !in hostname && '\\' !in hostname && '\0' !in hostname
    && !Contains(hostname, "..")
    && forall c <- hostname :: IsHostChar(c) || c == '.'
  }

  predicate DnsText(s: string) {
    forall c <- s :: IsHostChar(c) || c == '.'
  }

  lemma {:induction false} AsciiLength(s: string)
    requires forall c <- s :: c as int < 0x80
    ensures Utf8Len(s) == |s|
  {
    if s != "" {
      assert s[0] in s && forall c <- s[1..] :: c in s;
      AsciiLength(s[1..]);
    }
  }

  /** The names a certificate is made for: 1 to 253 letters, digits, hyphens and dots, without two dots in a row. */
  lemma ValidNamesExactly(hostname: string)
    ensures ValidateSniHostname(hostname) <==>
            && 1 <= |hostname| <= 253
            && (forall i | 0 <= i < |hostname| ::
                  'a' <= hostname[i] <= 'z' || 'A' <= hostname[i] <= 'Z' || '0' <= hostname[i] <= '9'
                  || hostname[i] == '-' || hostname[i] == '.')
            && (forall i | 0 <= i < |hostname| - 1 :: !(hostname[i] == '.' && hostname[i + 1] == '.'))
  {
    assert forall i | 0 <= i < |hostname| :: hostname[i] in hostname;
    if forall c <- hostname :: c as int < 0x80 { AsciiLength(hostname); }
    forall i: nat | i + 1 < |hostname|
      ensures OccursAt(hostname, "..", i) <==> hostname[i] == '.' && hostname[i + 1] == '.'
    {
      assert hostname[i..i + 2] == [hostname[i], hostname[i + 1]];
    }
    if Contains(hostname, "..") {
      var i :| 0 <= i <= |hostname| && OccursAt(hostname, "..", i);
      assert i + 1 < |hostname| && hostname[i] == '.' && hostname[i + 1] == '.';
    } else {
      assert forall i: nat | i + 1 < |hostname| :: !OccursAt(hostname, "..", i);
    }
  }

  lemma {:induction false} SanitizedAt(s: string)
    ensures |SanitizeHostnameForFilename(s)| == |s|
    ensures forall i | 0 <= i < |s| :: SanitizeHostnameForFilename(s)[i] == if IsHostChar(s[i]) then s[i] else '_'
  {
    if s != "" { SanitizedAt(s[1..]); }
  }

  /** Different hostnames get different file stems: only the dot is replaced, by a character no hostname contains. */
  lemma StemInjective(a: string, b: string)
    requires DnsText(a) && DnsText(b)
    ensures SanitizeHostnameForFilename(a) == SanitizeHostnameForFilename(b) <==> a == b
  {
    SanitizedAt(a);
    SanitizedAt(b);
    if SanitizeHostnameForFilename(a) == SanitizeHostnameForFilename(b) {
      forall i | 0 <= i < |a| ensures a[i] == b[i] {
        assert a[i] in a && b[i] in b;
        assert SanitizeHostnameForFilename(a)[i] == SanitizeHostnameForFilename(b)[i];
      }
    }
  }

  function CertFile(hostname: string): string {
    SanitizeHostnameForFilename(hostname) + ".pem"
  }

  function KeyFile(hostname: string): string {
    SanitizeHostnameForFilename(hostname) + "-key.pem"
  }

  lemma SameSuffix(a: string, b: string, suffix: string)
    ensures a + suffix == b + suffix <==> a == b
  {
    if a + suffix == b + suffix {
      assert (a + suffix)[..|a|] == a && (b + suffix)[..|b|] == b;
    }
  }

  lemma SuffixedStem(hostname: string)
    requires DnsText(hostname)
    ensures DnsText(hostname + "-key")
    ensures SanitizeHostnameForFilename(hostname + "-key") == SanitizeHostnameForFilename(hostname) + "-key"
  {
    SanitizedAt(hostname);
    SanitizedAt(hostname + "-key");
    var suffix := "-key";
    assert forall i | 0 <= i < 4 :: IsHostChar(suffix[i]);
  }

  lemma CertIsKeyExactly(a: string, b: string)
    requires DnsText(a) && DnsText(b)
    ensures CertFile(a) == KeyFile(b) <==> a == b + "-key"
  {
    var stem := SanitizeHostnameForFilename(b) + "-key";
    assert KeyFile(b) == stem + ".pem";
    SameSuffix(SanitizeHostnameForFilename(a), stem, ".pem");
    SuffixedStem(b);
    StemInjective(a, b + "-key");
  }

  /** Two hostnames share no file, unless one is the other followed by "-key": then the certificate of the one is
      stored where the other keeps its key. */
  lemma FilesDisjointExactly(a: string, b: string)
    requires ValidateSniHostname(a) && ValidateSniHostname(b) && a != b
    ensures {CertFile(a), KeyFile(a)} !! {CertFile(b), KeyFile(b)} <==> a != b + "-key" && b != a + "-key"
  {
    StemInjective(a, b);
    SameSuffix(SanitizeHostnameForFilename(a), SanitizeHostnameForFilename(b), ".pem");
    SameSuffix(SanitizeHostnameForFilename(a), SanitizeHostnameForFilename(b), "-key.pem");
    CertIsKeyExactly(a, b);
    CertIsKeyExactly(b, a);
    assert CertFile(a) in {CertFile(a), KeyFile(a)} && KeyFile(b) in {CertFile(b), KeyFile(b)};
    assert KeyFile(a) in {CertFile(a), KeyFile(a)} && CertFile(b) in {CertFile(b), KeyFile(b)};
  }

  // ---------------------------------------------------------------------------
  // The resolver
  // ---------------------------------------------------------------------------

  /** One handshake: the name the client asked for, the valid key pair on disk if there is one, and the key pair that
      would come out of generating one, if that works. */
  datatype Handshake = Handshake(hostname: string, onDisk: Option<CertifiedKey>, generated: Option<CertifiedKey>)

  predicate Cacheable(hostname: string) {
    hostname != "localhost" && ValidateSniHostname(hostname)
  }

  function Available(h: Handshake): Option<CertifiedKey> {
    if h.onDisk.Some? then h.onDisk else h.generated
  }

  class SniCertResolver {
    const defaultKey: CertifiedKey
    var cache: map<string, CertifiedKey>
    /** Set once a resolving thread has failed while it held the cache. */
    var poisoned: bool

    constructor (defaultKey: CertifiedKey)
      ensures this.defaultKey == defaultKey && cache == map[] && !poisoned
    {
      this.defaultKey := defaultKey;
      cache := map[];
      poisoned := false;
    }

    method ResolveForHostname(h: Handshake) returns (key: CertifiedKey)
      modifies this`cache
      ensures (key, cache) == if poisoned then (defaultKey, old(cache)) else Resolve(old(cache), defaultKey, h)
    {
      if h.hostname == "" || h.hostname == "localhost" {
        return defaultKey;
      }
      if !ValidateSniHostname(h.hostname) {
        return defaultKey;
      }
      if poisoned {
        return defaultKey;
      }
      if h.hostname in cache {
        return cache[h.hostname];
      }
      if h.onDisk.Some? {
        if |cache| < MAX_SNI_CACHE_SIZE {
          cache := cache[h.hostname := h.onDisk.value];
        }
        return h.onDisk.value;
      }
      if h.generated.Some? {
        if |cache| < MAX_SNI_CACHE_SIZE {
          cache := cache[h.hostname := h.generated.value];
        }
        return h.generated.value;
      }
      return defaultKey;
    }
  }

  /** The answer and the cache after one handshake. */
  function Resolve(cache: map<string, CertifiedKey>, defaultKey: CertifiedKey, h: Handshake)
    : (CertifiedKey, map<string, CertifiedKey>)
  {
    if !Cacheable(h.hostname) then (defaultKey, cache)
    else if h.hostname in cache then (cache[h.hostname], cache)
    else
      match Available(h)
      case None => (defaultKey, cache)
      case Some(key) => (key, if |cache| < MAX_SNI_CACHE_SIZE then cache[h.hostname := key] else cache)
  }

  // ---------------------------------------------------------------------------
  // Whole runs
  // ---------------------------------------------------------------------------

  function CacheAfter(cache: map<string, CertifiedKey>, defaultKey: CertifiedKey, run: seq<Handshake>)
    : map<string, CertifiedKey>
  {
    if run == [] then cache
    else Resolve(CacheAfter(cache, defaultKey, run[..|run| - 1]), defaultKey, run[|run| - 1]).1
  }

  /** `run[i]` is the handshake that brought `hostname` its key: the first for it that had one. */
  ghost predicate CameFrom(run: seq<Handshake>, i: int, hostname: string, key: CertifiedKey) {
    && 0 <= i < |run| && run[i].hostname == hostname && Available(run[i]) == Some(key)
    && Cacheable(hostname)
    && forall j | 0 <= j < i && run[j].hostname == hostname :: Available(run[j]).None?
  }

  /** While there is room, no hostname that ever had a key is missing. */
  ghost predicate NothingMissed(cache: map<string, CertifiedKey>, run: seq<Handshake>) {
    |cache| >= MAX_SNI_CACHE_SIZE
    || forall j | 0 <= j < |run| && Cacheable(run[j].hostname) && Available(run[j]).Some? :: run[j].hostname in cache
  }

  lemma {:induction false} CacheBounded(defaultKey: CertifiedKey, run: seq<Handshake>)
    ensures |CacheAfter(map[], defaultKey, run)| <= MAX_SNI_CACHE_SIZE
  {
    if run != [] { CacheBounded(defaultKey, run[..|run| - 1]); }
  }

  lemma StepMissesNothing(cache: map<string, CertifiedKey>, defaultKey: CertifiedKey, before: seq<Handshake>, h: Handshake)
    requires NothingMissed(cache, before)
    ensures NothingMissed(Resolve(cache, defaultKey, h).1, before + [h])
  {
    var next := Resolve(cache, defaultKey, h).1;
    assert |next| >= |cache| && forall k <- cache :: k in next;
    if |next| < MAX_SNI_CACHE_SIZE {
      var run := before + [h];
      forall j | 0 <= j < |run| && Cacheable(run[j].hostname) && Available(run[j]).Some?
        ensures run[j].hostname in next
      {
        assert j < |before| ==> run[j] == before[j];
      }
    }
  }

  lemma {:induction false} CacheMissesNothing(defaultKey: CertifiedKey, run: seq<Handshake>)
    ensures NothingMissed(CacheAfter(map[], defaultKey, run), run)
  {
    if run != [] {
      var before := run[..|run| - 1];
      CacheMissesNothing(defaultKey, before);
      StepMissesNothing(CacheAfter(map[], defaultKey, before), defaultKey, before, run[|run| - 1]);
      assert before + [run[|run| - 1]] == run;
    }
  }

  lemma StepKeepsOrigin(
    cache: map<string, CertifiedKey>, defaultKey: CertifiedKey, before: seq<Handshake>, last: Handshake, h: string)
    requires NothingMissed(cache, before) && h in Resolve(cache, defaultKey, last).1
    requires h in cache ==> exists i :: CameFrom(before, i, h, cache[h])
    ensures exists i :: CameFrom(before + [last], i, h, Resolve(cache, defaultKey, last).1[h])
  {
    var run := before + [last];
    if h in cache {
      var i :| CameFrom(before, i, h, cache[h]);
      assert CameFrom(run, i, h, cache[h]);
    } else {
      assert last.hostname == h && |cache| < MAX_SNI_CACHE_SIZE;
      assert CameFrom(run, |before|, h, Available(last).value);
    }
  }

  /** Over every run from an empty cache there are never more than 1000 entries, only of valid names other than
      "localhost", and each is the key that its own hostname got first. */
  lemma {:induction false} CacheHoldsFirstKeys(defaultKey: CertifiedKey, run: seq<Handshake>)
    ensures var cache := CacheAfter(map[], defaultKey, run);
            && |cache| <= MAX_SNI_CACHE_SIZE
            && forall h <- cache :: exists i :: CameFrom(run, i, h, cache[h])
  {
    CacheBounded(defaultKey, run);
    if run != [] {
      var before, last := run[..|run| - 1], run[|run| - 1];
      assert before + [last] == run;
      CacheHoldsFirstKeys(defaultKey, before);
      CacheMissesNothing(defaultKey, before);
      var cache := CacheAfter(map[], defaultKey, before);
      forall h | h in CacheAfter(map[], defaultKey, run)
        ensures exists i :: CameFrom(run, i, h, CacheAfter(map[], defaultKey, run)[h])
      {
        StepKeepsOrigin(cache, defaultKey, before, last, h);
      }
    }
  }

  /** An entry never changes and never goes, so a hostname keeps its key for good. */
  lemma {:induction false} CachedKeyIsFinal(
    cache: map<string, CertifiedKey>, defaultKey: CertifiedKey, run: seq<Handshake>, hostname: string)
    requires hostname in cache
    ensures hostname in CacheAfter(cache, defaultKey, run)
    ensures CacheAfter(cache, defaultKey, run)[hostname] == cache[hostname]
    ensures forall h: Handshake | h.hostname == hostname && Cacheable(hostname) ::
              Resolve(CacheAfter(cache, defaultKey, run), defaultKey, h).0 == cache[hostname]
  {
    if run != [] {
      CachedKeyIsFinal(cache, defaultKey, run[..|run| - 1], hostname);
    }
  }

  /** What each handshake is answered with, over every run: an invalid or empty name and "localhost" with the default
      key; a valid one with what the cache holds for it from then on. If it holds nothing, that is because there is no
      key, or because the cache is full; then with the key on disk before a generated one, and with the default key if
      there is neither. */
  lemma AnsweredExactly(defaultKey: CertifiedKey, run: seq<Handshake>, h: Handshake)
    ensures var before := CacheAfter(map[], defaultKey, run);
            var after := CacheAfter(map[], defaultKey, run + [h]);
            var answer := Resolve(before, defaultKey, h).0;
            && (h.hostname == "" || h.hostname == "localhost" || !ValidateSniHostname(h.hostname) ==>
                  answer == defaultKey && h.hostname !in after)
            && (h.hostname in after ==> answer == after[h.hostname])
            && (h.hostname in after && h.hostname !in before ==>
                  Some(answer) == if h.onDisk.Some? then h.onDisk else h.generated)
            && (h.hostname !in after && h.hostname != "localhost" && ValidateSniHostname(h.hostname) ==>
                  && (h.onDisk.Some? ==> answer == h.onDisk.value)
                  && (h.onDisk.None? && h.generated.Some? ==> answer == h.generated.value)
                  && (h.onDisk.None? && h.generated.None? ==> answer == defaultKey)
                  && (h.onDisk.Some? || h.generated.Some? ==> |after| == MAX_SNI_CACHE_SIZE))
  {
    var whole := run + [h];
    assert whole[..|whole| - 1] == run && whole[|whole| - 1] == h;
    CacheBounded(defaultKey, run);
    if !Cacheable(h.hostname) {
      NeverCached(defaultKey, whole, h.hostname);
    }
  }

  lemma NeverCached(defaultKey: CertifiedKey, run: seq<Handshake>, hostname: string)
    requires !Cacheable(hostname)
    ensures hostname !in CacheAfter(map[], defaultKey, run)
  {
    CacheHoldsFirstKeys(defaultKey, run);
  }
}
