/** The lab 2 server's per-path request counter: a map from a path relative
    to the served root to the number of requests that reached it.  Two
    increment strategies exist; the "naive" one is racy under threads, but
    one call at a time it has the same effect as the locked one. */
module HitCounter {
  import opened Text

  type Counts = map<string, nat>

  /** The number of requests recorded for `rel`, zero when there are none. */
  function Get(counts: Counts, rel: string): (n: nat)
    ensures rel !in counts ==> n == 0
    ensures rel in counts ==> n == counts[rel]
  {
    if rel in counts then counts[rel] else 0
  }

  /** Records one more request for `rel`, as the server does while holding
      the counter's lock. */
  function IncrementLocked(counts: Counts, rel: string): (r: Counts)
    ensures r.Keys == counts.Keys + {rel}
    ensures Get(r, rel) == Get(counts, rel) + 1
    ensures forall k :: k != rel ==> Get(r, k) == Get(counts, k)
  {
    counts[rel := Get(counts, rel) + 1]
  }

  /** Insert a zero for a new key, then add one to the stored value. */
  function IncrementNaive(counts: Counts, rel: string): (r: Counts)
    ensures r.Keys == counts.Keys + {rel}
    ensures Get(r, rel) == Get(counts, rel) + 1
    ensures forall k :: k != rel ==> Get(r, k) == Get(counts, k)
  {
    var seeded := if rel !in counts then counts[rel := 0] else counts;
    seeded[rel := seeded[rel] + 1]
  }

  datatype Mode = Naive | Locked

  /** The mode is naive when the configured name lower-cases to "naive",
      and locked for every other name. */
  function ModeOf(name: string): (m: Mode)
    ensures m == Naive <==> AsciiLower(name) == "naive"
  {
    if AsciiLower(name) == "naive" then Naive else Locked
  }

  /** The choice ignores the case of ASCII letters: `NAIVE`, `Naive` and
      `naive` all select the naive counter. */
  lemma ModeIgnoresCase(name: string)
    ensures ModeOf(name) == ModeOf(AsciiLower(name))
  {
    var lower := AsciiLower(name);
    assert AsciiLower(lower) == lower by {
      forall i | 0 <= i < |lower| ensures AsciiLower(lower)[i] == lower[i] {
        assert lower[i] == AsciiLowerChar(name[i]);
      }
    }
  }

  /** `_increment_count`: dispatch on the mode. */
  function Increment(mode: Mode, counts: Counts, rel: string): Counts {
    match mode
    case Naive => IncrementNaive(counts, rel)
    case Locked => IncrementLocked(counts, rel)
  }

  /** One call at a time, the naive increment does exactly what the locked
      one does. */
  lemma NaiveIsLocked(counts: Counts, rel: string)
    ensures IncrementNaive(counts, rel) == IncrementLocked(counts, rel)
  {
  }

  /** Whatever the mode, an increment adds one to its key and nothing else. */
  lemma IncrementEffect(mode: Mode, counts: Counts, rel: string)
    ensures Get(Increment(mode, counts, rel), rel) == Get(counts, rel) + 1
    ensures forall k :: k != rel ==> Get(Increment(mode, counts, rel), k) == Get(counts, k)
  {
    NaiveIsLocked(counts, rel);
  }

  /** Counting a sequence of requests, one increment per request. */
  function CountAll(mode: Mode, counts: Counts, rels: seq<string>): Counts
    decreases |rels|
  {
    if |rels| == 0 then counts
    else Increment(mode, CountAll(mode, counts, rels[..|rels| - 1]), rels[|rels| - 1])
  }

  /** After any sequence of requests served one at a time, each path's count
      has grown by the number of requests for that path. */
  lemma {:induction false} CountAllOccurrences(mode: Mode, counts: Counts, rels: seq<string>, k: string)
    ensures Get(CountAll(mode, counts, rels), k) == Get(counts, k) + multiset(rels)[k]
    decreases |rels|
  {
    if |rels| > 0 {
      var init := rels[..|rels| - 1];
      var last := rels[|rels| - 1];
      CountAllOccurrences(mode, counts, init, k);
      IncrementEffect(mode, CountAll(mode, counts, init), last);
      assert rels == init + [last];
      assert multiset(rels) == multiset(init) + multiset{last};
    }
  }
}
