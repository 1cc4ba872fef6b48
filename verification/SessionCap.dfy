/** Simultaneous-session caps per backend: a table of overrides whose keys are compared after
    normalization, and the resolution for one URL (src/config.rs). */
module SessionCap {
  import opened Text

  /** One configured override. */
  datatype Entry = Entry(key: string, value: nat)

  /** Which key a cap came from. */
  datatype Source = Override(key: string) | MaxSessions

  /** `rejected` is the value that was configured but not applied. */
  datatype SessionCap = SessionCap(limit: Option<nat>, source: Option<Source>, rejected: Option<nat>)

  const MIN_MAX_SESSIONS: nat := 1

  predicate IsSlash(c: char) { c == '/' }

  function BackendKey(url: string): string { TrimEndWhile(IsSlash, Trim(url)) }

  // ----- The order of raw keys

  /** Lexicographic by code point. */
  predicate Less(a: string, b: string) {
    b != [] && (a == [] || a[0] < b[0] || (a[0] == b[0] && Less(a[1..], b[1..])))
  }

  predicate EntryBefore(a: Entry, b: Entry) {
    Less(a.key, b.key) || (a.key == b.key && a.value <= b.value)
  }

  /** The keys agree up to `n`, where the first one ends or has the smaller character. */
  ghost predicate LessAt(a: string, b: string, n: nat) {
    n <= |a| && n < |b| && a[..n] == b[..n] && (n < |a| ==> a[n] < b[n])
  }

  lemma {:induction false} LessExactly(a: string, b: string)
    ensures Less(a, b) <==> exists n: nat :: LessAt(a, b, n)
    decreases |a|
  {
    if a == [] || b == [] || a[0] != b[0] {
      if Less(a, b) { assert LessAt(a, b, 0); }
      forall n: nat | LessAt(a, b, n) ensures n == 0 {
        if n > 0 { HeadsAgree(a, b, n); }
      }
    } else {
      LessExactly(a[1..], b[1..]);
      forall n: nat ensures LessAt(a[1..], b[1..], n) <==> LessAt(a, b, n + 1) { LessBehind(a, b, n); }
      forall n: nat | LessAt(a, b, n) ensures n > 0 && LessAt(a[1..], b[1..], n - 1) { LessBehind(a, b, n - 1); }
    }
  }

  lemma HeadsAgree(a: string, b: string, n: nat)
    requires LessAt(a, b, n) && n > 0
    ensures a != [] && b != [] && a[0] == b[0]
  {
    assert a[0] == a[..n][0] && b[0] == b[..n][0];
  }

  lemma LessBehind(a: string, b: string, n: nat)
    requires a != [] && b != [] && a[0] == b[0]
    ensures LessAt(a[1..], b[1..], n) <==> LessAt(a, b, n + 1)
  {
    if n < |a| && n < |b| {
      assert a[..n + 1] == [a[0]] + a[1..][..n] && b[..n + 1] == [b[0]] + b[1..][..n];
    }
  }

  lemma {:induction false} LessIsTotal(a: string, b: string)
    ensures Less(a, b) || a == b || Less(b, a)
    decreases |a|
  {
    if a != [] && b != [] && a[0] == b[0] {
      LessIsTotal(a[1..], b[1..]);
      assert a == [a[0]] + a[1..] && b == [b[0]] + b[1..];
    }
  }

  lemma {:induction false} LessIsTransitive(a: string, b: string, c: string)
    requires Less(a, b) && Less(b, c)
    ensures Less(a, c)
    decreases |a|
  {
    if a != [] && a[0] == b[0] == c[0] {
      LessIsTransitive(a[1..], b[1..], c[1..]);
    }
  }

  lemma {:induction false} LessIsStrict(a: string)
    ensures !Less(a, a)
    decreases |a|
  {
    if a != [] { LessIsStrict(a[1..]); }
  }

  lemma EntryOrder(a: Entry, b: Entry, c: Entry)
    ensures EntryBefore(a, b) || EntryBefore(b, a)
    ensures EntryBefore(a, b) && EntryBefore(b, c) ==> EntryBefore(a, c)
  {
    LessIsTotal(a.key, b.key);
    if Less(a.key, b.key) && Less(b.key, c.key) { LessIsTransitive(a.key, b.key, c.key); }
    hide Less;
  }

  // ----- Sorting

  predicate Sorted(es: seq<Entry>) { forall i, j | 0 <= i < j < |es| :: EntryBefore(es[i], es[j]) }

  function InsertEntry(e: Entry, es: seq<Entry>): seq<Entry> {
    if es == [] || EntryBefore(e, es[0]) then [e] + es else [es[0]] + InsertEntry(e, es[1..])
  }

  function SortEntries(es: seq<Entry>): seq<Entry> {
    if es == [] then [] else InsertEntry(es[0], SortEntries(es[1..]))
  }

  lemma {:induction false} InsertKeepsEntries(e: Entry, es: seq<Entry>)
    ensures multiset(InsertEntry(e, es)) == multiset(es) + multiset{e}
    decreases |es|
  {
    hide EntryBefore;
    if es != [] && !EntryBefore(e, es[0]) {
      InsertKeepsEntries(e, es[1..]);
      assert es == [es[0]] + es[1..];
    }
  }

  lemma InsertedEntry(e: Entry, es: seq<Entry>, x: Entry)
    requires x in InsertEntry(e, es)
    ensures x == e || x in es
  {
    hide InsertEntry;
    assert x in multiset(InsertEntry(e, es));
    InsertKeepsEntries(e, es);
  }

  lemma {:induction false} InsertKeepsSorted(e: Entry, es: seq<Entry>)
    requires Sorted(es)
    ensures Sorted(InsertEntry(e, es))
    decreases |es|
  {
    hide EntryBefore;
    if es == [] {
    } else if EntryBefore(e, es[0]) {
      forall i | 1 <= i < |es| ensures EntryBefore(e, es[i]) { EntryOrder(e, es[0], es[i]); }
    } else {
      EntryOrder(e, es[0], e);
      var rest := InsertEntry(e, es[1..]);
      InsertKeepsSorted(e, es[1..]);
      assert InsertEntry(e, es) == [es[0]] + rest;
      hide InsertEntry;
      forall i | 0 <= i < |rest| ensures EntryBefore(es[0], rest[i]) {
        InsertedEntry(e, es[1..], rest[i]);
      }
    }
  }

  lemma {:induction false} SortSorts(es: seq<Entry>)
    ensures Sorted(SortEntries(es)) && multiset(SortEntries(es)) == multiset(es)
    decreases |es|
  {
    if es != [] {
      SortSorts(es[1..]);
      InsertKeepsSorted(es[0], SortEntries(es[1..]));
      InsertKeepsEntries(es[0], SortEntries(es[1..]));
      assert es == [es[0]] + es[1..];
      hide Sorted, InsertEntry;
    }
  }

  lemma SortedEntries(es: seq<Entry>)
    ensures forall e :: e in SortEntries(es) <==> e in es
  {
    SortSorts(es);
    hide SortEntries;
    assert forall e :: e in SortEntries(es) <==> e in multiset(SortEntries(es));
    assert forall e :: e in es <==> e in multiset(es);
  }

  // ----- Normalizing the table

  /** `raw` is the smallest of the configured keys that normalize to `key`. */
  ghost predicate IsLeast(table: map<string, nat>, key: string, raw: string) {
    && raw in table && BackendKey(raw) == key
    && forall r | r in table && BackendKey(r) == key :: r == raw || Less(raw, r)
  }

  /** `value` stands under the smallest raw key of `key`. */
  ghost predicate LeastValue(table: map<string, nat>, key: string, value: nat) {
    exists raw :: IsLeast(table, key, raw) && table[raw] == value
  }

  /** The normalized table: per normalized key, the value of the smallest raw key. */
  ghost predicate Normalizes(table: map<string, nat>, m: map<string, nat>) {
    && (forall raw | raw in table :: BackendKey(raw) in m)
    && (forall key | key in m :: LeastValue(table, key, m[key]))
  }

  /** The entries of the table in some order, as a hash map enumerates them. */
  ghost predicate Enumerates(table: map<string, nat>, entries: seq<Entry>) {
    && (forall i | 0 <= i < |entries| :: entries[i].key in table && table[entries[i].key] == entries[i].value)
    && (forall k | k in table :: Entry(k, table[k]) in entries)
  }

  /** In the first `n` entries, the first with this normalized key is number `i`. */
  ghost predicate FirstWith(es: seq<Entry>, n: nat, key: string, i: nat) {
    && i < n <= |es| && BackendKey(es[i].key) == key
    && forall j | 0 <= j < i :: BackendKey(es[j].key) != key
  }

  method NormalizedBackends(table: map<string, nat>, entries: seq<Entry>) returns (m: map<string, nat>)
    requires Enumerates(table, entries)
    ensures Normalizes(table, m)
  {
    hide BackendKey, Less;
    var sorted := SortEntries(entries);
    m := map[];
    for i := 0 to |sorted|
      invariant forall j | 0 <= j < i :: BackendKey(sorted[j].key) in m
      invariant forall key | key in m :: exists j: nat :: FirstWith(sorted, i, key, j) && m[key] == sorted[j].value
    {
      var key := BackendKey(sorted[i].key);
      ghost var before := m;
      if key !in m {
        m := m[key := sorted[i].value];
        assert FirstWith(sorted, i + 1, key, i);
      }
      forall k | k in before
        ensures exists j: nat :: FirstWith(sorted, i + 1, k, j) && m[k] == sorted[j].value
      {
        var j: nat :| FirstWith(sorted, i, k, j) && before[k] == sorted[j].value;
        assert FirstWith(sorted, i + 1, k, j);
      }
    }
    SortSorts(entries);
    SortedEntries(entries);
    SortedTableNormalizes(table, entries, sorted, m);
  }

  lemma SortedTableNormalizes(table: map<string, nat>, entries: seq<Entry>, sorted: seq<Entry>, m: map<string, nat>)
    requires Enumerates(table, entries) && Sorted(sorted) && forall e :: e in sorted <==> e in entries
    requires forall j | 0 <= j < |sorted| :: BackendKey(sorted[j].key) in m
    requires forall key | key in m :: exists j: nat :: FirstWith(sorted, |sorted|, key, j) && m[key] == sorted[j].value
    ensures Normalizes(table, m)
  {
    hide BackendKey, Less, Sorted, LeastValue;
    assert forall e | e in sorted :: e.key in table && table[e.key] == e.value;
    forall raw | raw in table ensures BackendKey(raw) in m {
      assert Entry(raw, table[raw]) in sorted;
    }
    forall key | key in m
      ensures LeastValue(table, key, m[key])
    {
      var j: nat :| FirstWith(sorted, |sorted|, key, j) && m[key] == sorted[j].value;
      FirstIsLeast(table, sorted, key, j);
    }
  }

  lemma FirstIsLeast(table: map<string, nat>, sorted: seq<Entry>, key: string, j: nat)
    requires Sorted(sorted) && FirstWith(sorted, |sorted|, key, j)
    requires forall e | e in sorted :: e.key in table && table[e.key] == e.value
    requires forall k | k in table :: Entry(k, table[k]) in sorted
    ensures LeastValue(table, key, sorted[j].value)
  {
    hide BackendKey, Less;
    assert sorted[j] in sorted;
    forall r | r in table && BackendKey(r) == key
      ensures r == sorted[j].key || Less(sorted[j].key, r)
    {
      var i :| 0 <= i < |sorted| && sorted[i] == Entry(r, table[r]);
      assert j <= i;
    }
    assert IsLeast(table, key, sorted[j].key);
  }

  /** The smallest raw key is one key, so the normalized table does not depend on the order in
      which the configured one is enumerated. */
  lemma EnumerationIsIrrelevant(table: map<string, nat>, m1: map<string, nat>, m2: map<string, nat>)
    requires Normalizes(table, m1) && Normalizes(table, m2)
    ensures m1 == m2
  {
    hide *;
    forall key
      ensures key in m1 <==> key in m2
      ensures key in m1 ==> m1[key] == m2[key]
    {
      if key in m1 { SameValue(table, m1, m2, key); }
      if key in m2 { SameValue(table, m2, m1, key); }
    }
  }

  lemma LeastValueIsUnique(table: map<string, nat>, key: string, v: nat, w: nat)
    requires LeastValue(table, key, v) && LeastValue(table, key, w)
    ensures v == w
  {
    var a :| IsLeast(table, key, a) && table[a] == v;
    var b :| IsLeast(table, key, b) && table[b] == w;
    hide BackendKey;
    if Less(a, b) && Less(b, a) {
      LessIsTransitive(a, b, a);
      LessIsStrict(a);
    }
  }

  lemma SameValue(table: map<string, nat>, m1: map<string, nat>, m2: map<string, nat>, key: string)
    requires Normalizes(table, m1) && Normalizes(table, m2) && key in m1
    ensures key in m2 && m1[key] == m2[key]
  {
    assert LeastValue(table, key, m1[key]);
    assert key in m2;
    hide BackendKey, Less, LeastValue;
    LeastValueIsUnique(table, key, m1[key], m2[key]);
  }

  // ----- Resolving one URL

  /** The value that applies, and where it came from. */
  function Configured(m: map<string, nat>, maxSessions: Option<nat>, url: string): (Option<nat>, Option<Source>) {
    var key := BackendKey(url);
    if key in m then (Some(m[key]), Some(Override(key)))
    else match maxSessions
      case Some(value) => (Some(value), Some(MaxSessions))
      case None => (None, None)
  }

  ghost predicate HasOverride(table: map<string, nat>, url: string) {
    exists raw :: raw in table && BackendKey(raw) == BackendKey(url)
  }

  method ResolveSessionCap(table: map<string, nat>, entries: seq<Entry>, maxSessions: Option<nat>, url: string)
    returns (cap: SessionCap)
    requires Enumerates(table, entries)
    ensures ResolvesTo(table, maxSessions, url, cap)
  {
    hide BackendKey, LeastValue, Normalizes, HasOverride;
    var m := NormalizedBackends(table, entries);
    var configured := Configured(m, maxSessions, url);
    var raw, source := configured.0, configured.1;
    if raw.Some? && raw.value < MIN_MAX_SESSIONS {
      cap := SessionCap(None, source, raw);
    } else {
      cap := SessionCap(raw, source, None);
    }
    LookupMeansLeast(table, m, url);
  }

  /** What a configured value turns into: zero is rejected and leaves the backend unlimited. */
  ghost predicate Applies(cap: SessionCap, value: nat, source: Source) {
    && cap.source == Some(source)
    && cap.limit == (if value == 0 then None else Some(value))
    && cap.rejected == (if value == 0 then Some(0) else None)
  }

  /** The resolution without any table: by smallest raw key, then by the default. */
  ghost predicate ResolvesTo(table: map<string, nat>, maxSessions: Option<nat>, url: string, cap: SessionCap) {
    if HasOverride(table, url) then
      exists value :: LeastValue(table, BackendKey(url), value) && Applies(cap, value, Override(BackendKey(url)))
    else if maxSessions.Some? then Applies(cap, maxSessions.value, MaxSessions)
    else cap == SessionCap(None, None, None)
  }

  lemma LookupMeansLeast(table: map<string, nat>, m: map<string, nat>, url: string)
    requires Normalizes(table, m)
    ensures BackendKey(url) in m <==> HasOverride(table, url)
    ensures BackendKey(url) in m ==> LeastValue(table, BackendKey(url), m[BackendKey(url)])
  {
    hide BackendKey, Less;
  }

  /** Two spellings of one backend always get the same cap, and the cap is never zero. */
  lemma SpellingsResolveAlike(table: map<string, nat>, maxSessions: Option<nat>, a: string, b: string,
                              capA: SessionCap, capB: SessionCap)
    requires BackendKey(a) == BackendKey(b)
    requires ResolvesTo(table, maxSessions, a, capA) && ResolvesTo(table, maxSessions, b, capB)
    ensures capA == capB && capA.limit != Some(0)
  {
    hide BackendKey, LeastValue;
    if HasOverride(table, a) {
      var v :| LeastValue(table, BackendKey(a), v) && Applies(capA, v, Override(BackendKey(a)));
      var w :| LeastValue(table, BackendKey(b), w) && Applies(capB, w, Override(BackendKey(b)));
      LeastValueIsUnique(table, BackendKey(a), v, w);
    }
  }

  /** A zero in the override that matches makes the backend unlimited whatever the default. */
  lemma MatchedZeroIsUnlimited(table: map<string, nat>, maxSessions: Option<nat>, url: string, cap: SessionCap)
    requires ResolvesTo(table, maxSessions, url, cap) && LeastValue(table, BackendKey(url), 0)
    ensures cap == SessionCap(None, Some(Override(BackendKey(url))), Some(0))
  {
    assert HasOverride(table, url);
    hide BackendKey, LeastValue;
    var v :| LeastValue(table, BackendKey(url), v) && Applies(cap, v, Override(BackendKey(url)));
    LeastValueIsUnique(table, BackendKey(url), v, 0);
  }

  // ----- Normalized keys

  /** Whitespace around a URL and slashes behind it do not matter. */
  lemma SpellingsShareAKey(pre: string, core: string, slashes: string, post: string)
    requires All(IsWhitespace, pre) && All(IsWhitespace, post) && All(IsSlash, slashes)
    requires Trimmed(IsWhitespace, core)
    ensures BackendKey(pre + core + slashes + post) == BackendKey(core)
  {
    var t := core + slashes;
    assert pre + core + slashes + post == pre + t + post;
    TrimmedWithSlashes(core, slashes);
    SlashesBehind(core, slashes);
    hide Trimmed, TrimEndWhile;
    TrimWhileUnique(IsWhitespace, pre + t + post, pre, t, post);
    TrimmedStays(core);
  }

  lemma TrimmedWithSlashes(core: string, slashes: string)
    requires All(IsSlash, slashes) && Trimmed(IsWhitespace, core)
    ensures Trimmed(IsWhitespace, core + slashes)
  {}

  lemma SlashesBehind(core: string, slashes: string)
    requires All(IsSlash, slashes)
    ensures TrimEndWhile(IsSlash, core + slashes) == TrimEndWhile(IsSlash, core)
  {
    var t := core + slashes;
    var j, k := SkipBack(IsSlash, core, |core|), SkipBack(IsSlash, t, |t|);
    assert forall q | 0 <= q < |core| :: t[q] == core[q];
    assert k == j;
    assert t[..j] == core[..j];
  }

  /** From `k` on only slashes, with whitespace in front of them. */
  predicate SpaceBeforeSlashes(t: string, k: nat) { 0 < k < |t| && IsWhitespace(t[k - 1]) && All(IsSlash, t[k..]) }

  /** Normalizing twice changes nothing exactly when no whitespace stands in front of the
      slashes that end the trimmed URL. */
  lemma KeyIsStableExactlyWhen(url: string)
    ensures BackendKey(BackendKey(url)) == BackendKey(url) <==> forall k: nat :: !SpaceBeforeSlashes(Trim(url), k)
  {
    var t := Trim(url);
    var j := SkipBack(IsSlash, t, |t|);
    assert BackendKey(url) == t[..j];
    var pre, post := TrimWhileParts(IsWhitespace, url);
    assert Trimmed(IsWhitespace, t);
    hide Trim, TrimWhile, BackendKey;
    KeyIsStableByItsEnd(url);
    LastSlashes(t, j);
  }

  lemma LastSlashes(t: string, j: nat)
    requires Trimmed(IsWhitespace, t) && RunStartsAt(IsSlash, t, j, |t|)
    ensures (0 < j && IsWhitespace(t[j - 1])) <==> exists k: nat :: SpaceBeforeSlashes(t, k)
  {
    if 0 < j && IsWhitespace(t[j - 1]) {
      assert j < |t|;
      assert SpaceBeforeSlashes(t, j);
    }
    forall k: nat | SpaceBeforeSlashes(t, k)
      ensures k == j
    {
      assert !IsSlash(t[k - 1]);
      assert forall q | k <= q < |t| :: t[q] == t[k..][q - k];
    }
  }

  lemma KeyIsStableByItsEnd(url: string)
    ensures BackendKey(BackendKey(url)) == BackendKey(url)
            <==> BackendKey(url) == [] || !IsWhitespace(BackendKey(url)[|BackendKey(url)| - 1])
  {
    var k := BackendKey(url);
    var pre, post := TrimWhileParts(IsWhitespace, url);
    assert k <= Trim(url);
    if k == [] {
      TrimmedStays([]);
    } else {
      assert !IsWhitespace(k[0]) && !IsSlash(k[|k| - 1]);
      if IsWhitespace(k[|k| - 1]) {
        TrimDropsTheEnd(k);
      } else {
        TrimmedStays(k);
      }
    }
  }

  lemma TrimDropsTheEnd(k: string)
    requires k != [] && IsWhitespace(k[|k| - 1])
    ensures |BackendKey(k)| < |k|
  {
    var pre, post := TrimWhileParts(IsWhitespace, k);
    assert BackendKey(k) <= Trim(k);
    var core := Trim(k);
    hide BackendKey, Trim, TrimWhile;
    EndsInBlank(k, pre, core, post);
  }

  lemma EndsInBlank(k: string, pre: string, core: string, post: string)
    requires k == pre + core + post && k != [] && IsWhitespace(k[|k| - 1]) && Trimmed(IsWhitespace, core)
    ensures |core| < |k|
  {
    assert pre == [] && post == [] ==> k == core;
  }

  lemma SpaceBeforeSlashIsNotStable()
    ensures BackendKey("a /") == "a " && BackendKey("a ") == "a"
  {
    TrimmedStays("a /");
    assert RunStartsAt(IsSlash, "a /", 2, 3);
    assert "a " == [] + "a" + " ";
    TrimWhileUnique(IsWhitespace, "a ", [], "a", " ");
    assert RunStartsAt(IsSlash, "a", 1, 1);
  }
}
