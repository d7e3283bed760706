/** One iteration of the stream reader: append a chunk to the rolling
    buffer, parse a record at every header the scanner finds, publish the
    records that pass the deduplication rules, and cut the buffer back to its
    newest bytes. The clock is a parameter (one reading per chunk, in
    milliseconds), and so is the iteration order of the `other` map, which
    decides the order of the display string's trailing parts. */
module StreamStep {
  import opened Ascii
  import opened VorbisScan
  import opened VorbisComment
  import opened StreamMeta
  import opened MetadataParse

  /** The rolling buffer keeps at most this many of the newest bytes. */
  const BUFFER_LIMIT: nat := 16384

  /** The set of display strings already published is emptied once it holds
      more than this many. */
  const SEEN_LIMIT: nat := 100

  /** After the first record, at least this many milliseconds must pass
      between two publications. */
  const MIN_INTERVAL_MS: nat := 5000

  /** The time taken as elapsed when the clock has gone backwards. */
  const CLOCK_FALLBACK_MS: nat := 6000

  /** The iteration order of a record's `other` map. */
  type Arrangement = map<seq<byte>, seq<byte>> -> seq<seq<byte>>

  /** The display string of a record when its `other` map is visited in
      the order `arrange` gives; published records are recognised by it. */
  function DisplayKey(arrange: Arrangement): Metadata -> seq<byte> {
    (m: Metadata) => Display(m, arrange(m.other))
  }

  /** Milliseconds from `since` to `now`; when the clock reads earlier than
      `since` the elapsed time is taken to be six seconds. */
  function Elapsed(since: nat, now: nat): nat {
    if since <= now then now - since else CLOCK_FALLBACK_MS
  }

  /** The newest `BUFFER_LIMIT` bytes of `b`, or all of `b` when it is not
      longer than that. */
  function Retain(b: seq<byte>): (r: seq<byte>)
    ensures IsSuffix(r, b)
    ensures |r| == if |b| <= BUFFER_LIMIT then |b| else BUFFER_LIMIT
  {
    if |b| > BUFFER_LIMIT then b[|b| - BUFFER_LIMIT..] else b
  }

  /** The deduplication state: the display strings already published, the
      time of the last publication, and whether a first record has been
      published yet. */
  datatype Dedup = Dedup(seen: set<seq<byte>>, lastOutput: nat, initialFound: bool)

  /** The state's own invariant: the seen set stays within its limit, and it
      is empty until the first publication. */
  predicate Sane(d: Dedup) {
    |d.seen| <= SEEN_LIMIT && (!d.initialFound ==> d.seen == {})
  }

  /** Whether the rules admit a publication at time `now` at all: always
      before the first record, otherwise once five seconds have passed. */
  predicate Open(d: Dedup, now: nat) {
    !d.initialFound || Elapsed(d.lastOutput, now) >= MIN_INTERVAL_MS
  }

  /** Whether record `m` with display string `display` may be published:
      it must be complete, and after the first record it must be new. */
  predicate Eligible(d: Dedup, m: Metadata, display: seq<byte>) {
    IsComplete(m) && (d.initialFound ==> display !in d.seen)
  }

  /** The decision for one parsed record: publish it or not, and the new
      state. Before the first publication every complete record is
      published; afterwards a complete record is published exactly when its
      display string is new and five seconds have passed since the last one.
      A publication after the first empties the seen set once it exceeds its
      limit. Nothing changes when nothing is published. */
  function Offer(d: Dedup, m: Metadata, display: seq<byte>, now: nat): (r: (Dedup, bool))
    ensures r.1 <==> Open(d, now) && Eligible(d, m, display)
    ensures !r.1 ==> r.0 == d
    ensures r.1 ==> r.0.initialFound && r.0.lastOutput == now
    ensures r.1 ==> r.0.seen == if d.initialFound && |d.seen + {display}| > SEEN_LIMIT then {}
                                else d.seen + {display}
    ensures Sane(d) ==> Sane(r.0)
  {
    if !IsComplete(m) then (d, false)
    else if !d.initialFound then (Dedup(d.seen + {display}, now, true), true)
    else if display !in d.seen && Elapsed(d.lastOutput, now) >= MIN_INTERVAL_MS then
      var seen := d.seen + {display};
      (Dedup(if |seen| > SEEN_LIMIT then {} else seen, now, true), true)
    else (d, false)
  }

  /** The records `ms` offered in order: the final state and the records
      published. Nothing changes unless something is published, and after a
      publication the state records it at time `now`. */
  function OfferAll(d: Dedup, ms: seq<Metadata>, key: Metadata -> seq<byte>, now: nat): (r: (Dedup, seq<Metadata>))
    ensures r.1 == [] ==> r.0 == d
    ensures r.1 != [] ==> r.0.initialFound && r.0.lastOutput == now
    ensures Sane(d) ==> Sane(r.0)
    ensures forall i :: 0 <= i < |r.1| ==> IsComplete(r.1[i])
  {
    if ms == [] then (d, [])
    else
      var (d1, published) := OfferAll(d, ms[..|ms| - 1], key, now);
      var m := ms[|ms| - 1];
      var (d2, accepted) := Offer(d1, m, key(m), now);
      (d2, if accepted then published + [m] else published)
  }

  /** Offering one more record extends the run by one decision. */
  lemma OfferAllSnoc(d: Dedup, ms: seq<Metadata>, m: Metadata, key: Metadata -> seq<byte>, now: nat)
    ensures OfferAll(d, ms + [m], key, now) ==
              var (d1, published) := OfferAll(d, ms, key, now);
              var (d2, accepted) := Offer(d1, m, key(m), now);
              (d2, if accepted then published + [m] else published)
  {
    assert (ms + [m])[..|ms|] == ms;
  }

  /** Offering `ms` and then `ns` is offering `ms + ns`: the run can be
      split anywhere, for instance chunk by chunk. */
  lemma {:induction false} OfferAllAppend(d: Dedup, ms: seq<Metadata>, ns: seq<Metadata>, key: Metadata -> seq<byte>, now: nat)
    ensures OfferAll(d, ms + ns, key, now) ==
              var (d1, published1) := OfferAll(d, ms, key, now);
              var (d2, published2) := OfferAll(d1, ns, key, now);
              (d2, published1 + published2)
    decreases |ns|
  {
    if ns == [] {
      assert ms + ns == ms;
      assert OfferAll(d, ms, key, now).1 + [] == OfferAll(d, ms, key, now).1;
    } else {
      var init := ns[..|ns| - 1];
      var m := ns[|ns| - 1];
      assert ms + ns == (ms + init) + [m];
      assert ns == init + [m];
      OfferAllAppend(d, ms, init, key, now);
      OfferAllSnoc(d, ms + init, m, key, now);
      var (d1, published1) := OfferAll(d, ms, key, now);
      OfferAllSnoc(d1, init, m, key, now);
      var published2 := OfferAll(d1, init, key, now).1;
      assert published1 + (published2 + [m]) == (published1 + published2) + [m];
    }
  }

  /** Index of the first record of `ms` that may be published from state
      `d`, or `|ms|` when there is none. */
  function FirstEligible(d: Dedup, ms: seq<Metadata>, key: Metadata -> seq<byte>): (k: nat)
    ensures k <= |ms|
    ensures forall j :: 0 <= j < k ==> !Eligible(d, ms[j], key(ms[j]))
    ensures k < |ms| ==> Eligible(d, ms[k], key(ms[k]))
  {
    if ms == [] then 0
    else
      var k := FirstEligible(d, ms[..|ms| - 1], key);
      if k < |ms| - 1 then k
      else if Eligible(d, ms[|ms| - 1], key(ms[|ms| - 1])) then |ms| - 1
      else |ms|
  }

  /** What one chunk publishes: nothing when the rules are closed at `now`,
      and otherwise exactly the first record that may be published, if any.
      In particular the first complete record of the stream is always
      published, and at most one record is published per clock reading. */
  lemma {:induction false} PublishedRecords(d: Dedup, ms: seq<Metadata>, key: Metadata -> seq<byte>, now: nat)
    ensures OfferAll(d, ms, key, now).1 ==
              if Open(d, now) && FirstEligible(d, ms, key) < |ms| then [ms[FirstEligible(d, ms, key)]]
              else []
    decreases |ms|
  {
    if ms != [] {
      var init := ms[..|ms| - 1];
      PublishedRecords(d, init, key, now);
      var (d1, published) := OfferAll(d, init, key, now);
      if published != [] {
        assert Elapsed(d1.lastOutput, now) == 0;
      }
    }
  }

  /** Before the first publication the first complete record is published,
      and nothing else. */
  lemma FirstCompleteRecordPublished(d: Dedup, ms: seq<Metadata>, key: Metadata -> seq<byte>, now: nat, k: nat)
    requires !d.initialFound
    requires k < |ms| && IsComplete(ms[k]) && forall j :: 0 <= j < k ==> !IsComplete(ms[j])
    ensures OfferAll(d, ms, key, now).1 == [ms[k]]
    ensures OfferAll(d, ms, key, now).0.initialFound
  {
    PublishedRecords(d, ms, key, now);
    var f := FirstEligible(d, ms, key);
    assert Eligible(d, ms[k], key(ms[k]));
    assert f < |ms| ==> IsComplete(ms[f]);
  }

  /** After the first publication, nothing is published within five seconds
      of the last publication, and a record whose display string was
      already published is not published again. */
  lemma LaterRecordsNeedNewDisplayAndInterval(d: Dedup, ms: seq<Metadata>, key: Metadata -> seq<byte>, now: nat, m: Metadata)
    requires d.initialFound
    requires m in OfferAll(d, ms, key, now).1
    ensures Elapsed(d.lastOutput, now) >= MIN_INTERVAL_MS
    ensures IsComplete(m) && key(m) !in d.seen
  {
    PublishedRecords(d, ms, key, now);
  }

  /** `parse_vorbis_metadata` with the clock reading `now`, as a function
      of the bytes from a header position onwards. */
  function ParseAt(now: nat): seq<byte> -> Option<Metadata> {
    (input: seq<byte>) => ParsedMetadata(input, now)
  }

  /** The record `parse` finds at position `p` of `buf`, if any. */
  function Found(buf: seq<byte>, p: nat, parse: seq<byte> -> Option<Metadata>): seq<Metadata>
    requires p <= |buf|
  {
    match parse(buf[p..])
    case None => []
    case Some(m) => [m]
  }

  /** The records found in `buf` at the header positions `ps`, in order:
      one for every position where `parse` succeeds. */
  function Candidates(buf: seq<byte>, ps: seq<nat>, parse: seq<byte> -> Option<Metadata>): seq<Metadata>
    requires forall i :: 0 <= i < |ps| ==> ps[i] <= |buf|
  {
    if ps == [] then []
    else
      Candidates(buf, ps[..|ps| - 1], parse) + Found(buf, ps[|ps| - 1], parse)
  }

  /** Looking at one more position extends the records by the one parsed
      there, if any. */
  lemma CandidatesSnoc(buf: seq<byte>, ps: seq<nat>, p: nat, parse: seq<byte> -> Option<Metadata>)
    requires forall i :: 0 <= i < |ps| ==> ps[i] <= |buf|
    requires p <= |buf|
    ensures Candidates(buf, ps + [p], parse) == Candidates(buf, ps, parse) + Found(buf, p, parse)
  {
    assert (ps + [p])[..|ps|] == ps;
  }

  /** Offering the records of one more position continues the run with
      the record found there, if any. */
  lemma OfferAllCandidatesStep(d: Dedup, buf: seq<byte>, ps: seq<nat>, i: nat, parse: seq<byte> -> Option<Metadata>,
                               key: Metadata -> seq<byte>, now: nat)
    requires i < |ps| && forall k :: 0 <= k < |ps| ==> ps[k] <= |buf|
    ensures OfferAll(d, Candidates(buf, ps[..i + 1], parse), key, now) ==
              var (d1, published1) := OfferAll(d, Candidates(buf, ps[..i], parse), key, now);
              var (d2, published2) := OfferAll(d1, Found(buf, ps[i], parse), key, now);
              (d2, published1 + published2)
  {
    assert ps[..i + 1] == ps[..i] + [ps[i]];
    CandidatesSnoc(buf, ps[..i], ps[i], parse);
    OfferAllAppend(d, Candidates(buf, ps[..i], parse), Found(buf, ps[i], parse), key, now);
  }

  /** `parse` reads a record as `parse_vorbis_metadata` does with the clock
      reading `now`. */
  ghost predicate ParsesAt(parse: seq<byte> -> Option<Metadata>, now: nat) {
    forall input {:trigger ParsedMetadata(input, now)} :: parse(input) == ParsedMetadata(input, now)
  }

  /** The branch of the `for pos in positions` loop that handles a parsed
      record `m` whose display string is `display`, on the loop's local
      state: it tells whether `m` is published and gives the new state. */
  method OfferRecord(d: Dedup, m: Metadata, display: seq<byte>, now: nat) returns (next: Dedup, accepted: bool)
    ensures (next, accepted) == Offer(d, m, display, now)
  {
    var seen, lastOutputTime, initialFound := d.seen, d.lastOutput, d.initialFound;
    accepted := false;
    if IsComplete(m) {
      if !initialFound {
        seen := seen + {display};
        lastOutputTime := now;
        initialFound := true;
        accepted := true;
      } else if display !in seen && Elapsed(lastOutputTime, now) >= MIN_INTERVAL_MS {
        seen := seen + {display};
        lastOutputTime := now;
        accepted := true;
        if |seen| > SEEN_LIMIT {
          seen := {};
        }
      }
    }
    next := Dedup(seen, lastOutputTime, initialFound);
  }

  /** The body of the `for pos in positions` loop: parse a record from
      position `pos` onwards and, when one is found, offer it. */
  method OfferAt(data: seq<byte>, pos: nat, d: Dedup, now: nat, ghost parse: seq<byte> -> Option<Metadata>,
                 key: Metadata -> seq<byte>) returns (next: Dedup, published: seq<Metadata>)
    requires pos <= |data|
    requires ParsesAt(parse, now)
    ensures (next, published) == OfferAll(d, Found(data, pos, parse), key, now)
  {
    next, published := d, [];
    var parsed := ParseVorbisMetadata(data[pos..], now);
    assert parse(data[pos..]) == ParsedMetadata(data[pos..], now);
    if parsed.Some? {
      var m := parsed.value.Value();
      OfferAllSnoc(d, [], m, key, now);
      assert [] + [m] == [m];
      var accepted;
      next, accepted := OfferRecord(d, m, key(m), now);
      if accepted {
        published := [m];
      }
    }
  }

  /** The `for pos in positions` loop over the header positions of `data`,
      from the deduplication state `d`: a record is parsed at every position,
      in order, and each one parsed is offered. */
  method OfferAllAt(data: seq<byte>, positions: seq<nat>, d: Dedup, now: nat, ghost parse: seq<byte> -> Option<Metadata>,
                    key: Metadata -> seq<byte>) returns (next: Dedup, published: seq<Metadata>)
    requires forall k :: 0 <= k < |positions| ==> positions[k] <= |data|
    requires ParsesAt(parse, now)
    ensures (next, published) == OfferAll(d, Candidates(data, positions, parse), key, now)
    ensures published == [] ==> next == d
    ensures published != [] ==> next.initialFound
    ensures Sane(d) ==> Sane(next)
    ensures forall i :: 0 <= i < |published| ==> IsComplete(published[i])
  {
    next, published := d, [];
    var i := 0;
    while i < |positions|
      invariant i <= |positions|
      invariant (next, published) == OfferAll(d, Candidates(data, positions[..i], parse), key, now)
    {
      OfferAllCandidatesStep(d, data, positions, i, parse, key, now);
      var found;
      next, found := OfferAt(data, positions[i], next, now, parse, key);
      published := published + found;
      i := i + 1;
    }
    assert positions[..|positions|] == positions;
  }

  /** `ParseAt(now)` is the parser of `parse_vorbis_metadata`. */
  lemma ParseAtParses(now: nat)
    ensures ParsesAt(ParseAt(now), now)
  {
  }

  /** The state of `stream_processor` between chunks: the rolling buffer,
      the deduplication state, the shared "current record" slot and the log
      of broadcast records. `received` is every byte read from the stream so
      far. */
  class StreamProcessor {
    var buffer: seq<byte>
    var seen: set<seq<byte>>
    var lastOutputTime: nat
    var initialFound: bool
    var current: Option<Metadata>
    var sent: seq<Metadata>
    ghost var received: seq<byte>

    /** The deduplication state held in the fields. */
    function State(): Dedup
      reads this
    {
      Dedup(seen, lastOutputTime, initialFound)
    }

    /** The publication state is consistent: the seen set is within its
      limit, the current record is the last one broadcast, and only complete
      records are broadcast, none before the first publication. */
    ghost predicate Consistent()
      reads this
    {
      Sane(State()) &&
      (!initialFound ==> sent == []) &&
      current == (if sent == [] then None else Some(sent[|sent| - 1])) &&
      forall i :: 0 <= i < |sent| ==> IsComplete(sent[i])
    }

    /** The buffer is a tail of the bytes received and within its limit, and
      the publication state is consistent. */
    ghost predicate Valid()
      reads this
    {
      |buffer| <= BUFFER_LIMIT && IsSuffix(buffer, received) && Consistent()
    }

    /** A reader that has just connected, at time `start`. */
    constructor (start: nat)
      ensures Valid()
      ensures buffer == [] && received == [] && sent == []
      ensures State() == Dedup({}, start, false)
    {
      buffer := [];
      seen := {};
      lastOutputTime := start;
      initialFound := false;
      current := None;
      sent := [];
      received := [];
    }

    /** Stores the state reached by the loop over the header positions and
      the records it published: the last of them becomes the current record,
      and all of them are broadcast. */
    method Publish(next: Dedup, published: seq<Metadata>)
      requires Consistent()
      requires published == [] ==> next == State()
      requires published != [] ==> next.initialFound
      requires Sane(next)
      requires forall i :: 0 <= i < |published| ==> IsComplete(published[i])
      modifies this
      ensures Consistent()
      ensures buffer == old(buffer) && received == old(received)
      ensures State() == next && sent == old(sent) + published
    {
      seen, lastOutputTime, initialFound := next.seen, next.lastOutput, next.initialFound;
      if published != [] {
        current := Some(published[|published| - 1]);
      }
      sent := sent + published;
    }

    /** One chunk of `stream_processor`: the records parsed at the header
      positions of the buffer extended by `chunk` are offered in order, the
      published ones are stored and broadcast, and the buffer keeps its
      newest bytes. The records are parsed by `parse_vorbis_metadata` at
      the clock reading `now` and recognised by their display strings. */
    method Step(chunk: seq<byte>, now: nat, arrange: Arrangement)
      requires Valid()
      modifies this
      ensures Valid()
      ensures received == old(received) + chunk
      ensures buffer == Retain(old(buffer) + chunk)
      ensures var data := old(buffer) + chunk;
              var r := OfferAll(old(State()), Candidates(data, CommentStarts(data), ParseAt(now)), DisplayKey(arrange), now);
              State() == r.0 && sent == old(sent) + r.1
    {
      ParseAtParses(now);
      var positions := FindVorbisCommentStart(buffer + chunk);
      StepAt(chunk, positions, now, ParseAt(now), DisplayKey(arrange));
    }

    /** `Step` once the header positions of the extended buffer are known,
      for any `parse` that reads records as `parse_vorbis_metadata` does and
      any display function `key`. */
    method StepAt(chunk: seq<byte>, positions: seq<nat>, now: nat, ghost parse: seq<byte> -> Option<Metadata>,
                  key: Metadata -> seq<byte>)
      requires Valid()
      requires forall k :: 0 <= k < |positions| ==> positions[k] <= |buffer + chunk|
      requires ParsesAt(parse, now)
      modifies this
      ensures Valid()
      ensures received == old(received) + chunk
      ensures buffer == Retain(old(buffer) + chunk)
      ensures var r := OfferAll(old(State()), Candidates(old(buffer) + chunk, positions, parse), key, now);
              State() == r.0 && sent == old(sent) + r.1
    {
      var next, published := OfferAllAt(buffer + chunk, positions, State(), now, parse, key);
      Publish(next, published);
      Keep(chunk);
    }

    /** The buffer's side of a chunk: the chunk is appended, and the buffer
      is cut back to its newest `BUFFER_LIMIT` bytes; it stays a tail of the
      bytes received. Nothing else changes. */
    method Keep(chunk: seq<byte>)
      requires |buffer| <= BUFFER_LIMIT && IsSuffix(buffer, received)
      modifies this
      ensures |buffer| <= BUFFER_LIMIT && IsSuffix(buffer, received)
      ensures received == old(received) + chunk
      ensures buffer == Retain(old(buffer) + chunk)
      ensures State() == old(State()) && sent == old(sent) && current == old(current)
    {
      var data := buffer + chunk;
      received := received + chunk;
      assert IsSuffix(data, received);
      buffer := Retain(data);
      SuffixTransitive(buffer, data, received);
    }
  }
}
