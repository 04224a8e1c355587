/** The catalog synchronizer: it pages through the arXiv query API from a start
    offset, turns every returned feed entry into a plain record keyed by its
    raw arXiv id, merges it into the in-memory database when it is new or a
    newer version, and decides when to stop and whether to save.

    The network is an oracle `fetch(index, attempt)`: the entries of the page
    at offset `index` on the `attempt`-th request (attempts count from 1). */
module FetchPapers {
  import opened Wrappers
  import opened Text
  import opened Values

  /** Default number of attempts `send_request` makes for one page. */
  const RETRIES := 5

  type Fetch = (int, nat) -> seq<Value>

  // ---------------------------------------------------------------------
  // encode_feedparser_dict

  /** The deep copy that turns every dictionary (the feed library's or a plain
      one) into a fresh plain dictionary, every list into a fresh list, and
      keeps every other object as it is. */
  function Encoded(v: Value): Value
  {
    match v
    case Dict(_, f) => Dict(PlainDict, map k | k in f :: Encoded(f[k]))
    case List(xs) => List(seq(|xs|, i requires 0 <= i < |xs| => Encoded(xs[i])))
    case _ => v
  }

  /** No dictionary of the feed library anywhere inside `v`. */
  predicate Plain(v: Value)
  {
    match v
    case Dict(kind, f) => kind == PlainDict && forall k :: k in f ==> Plain(f[k])
    case List(xs) => forall i :: 0 <= i < |xs| ==> Plain(xs[i])
    case _ => true
  }

  /** `a` and `b` have the same dictionary keys and list lengths at every
      level, and the same objects at the leaves; the dictionary classes may
      differ. */
  predicate SameShape(a: Value, b: Value)
  {
    match a
    case Dict(_, f) =>
      b.Dict? && b.fields.Keys == f.Keys && forall k :: k in f ==> SameShape(f[k], b.fields[k])
    case List(xs) =>
      b.List? && |b.items| == |xs| && forall i :: 0 <= i < |xs| ==> SameShape(xs[i], b.items[i])
    case _ => b == a
  }

  /** The script's loops: a fresh dictionary filled key by key, a fresh list
      filled element by element, each value copied recursively. */
  method EncodeFeedparserDict(d: Value) returns (r: Value)
    ensures r == Encoded(d)
    decreases d
  {
    match d
    case Dict(_, f) =>
      var j: map<string, Value> := map[];
      var keys := f.Keys;
      while keys != {}
        invariant keys <= f.Keys
        invariant j.Keys == f.Keys - keys
        invariant forall k :: k in j ==> j[k] == Encoded(f[k])
        decreases keys
      {
        var k :| k in keys;
        var e := EncodeFeedparserDict(f[k]);
        j := j[k := e];
        keys := keys - {k};
      }
      r := Dict(PlainDict, j);
    case List(xs) =>
      var l: seq<Value> := [];
      for i := 0 to |xs|
        invariant |l| == i
        invariant forall n :: 0 <= n < i ==> l[n] == Encoded(xs[n])
      {
        var e := EncodeFeedparserDict(xs[i]);
        l := l + [e];
      }
      r := List(l);
    case _ =>
      r := d;
  }

  /** The copy is plain and keeps the structure: same keys, same list lengths
      in the same order, the same leaves. */
  lemma {:induction false} EncodedIsPlainCopy(v: Value)
    ensures Plain(Encoded(v)) && SameShape(v, Encoded(v))
  {
    match v
    case Dict(_, f) =>
      forall k | k in f
        ensures Plain(Encoded(f[k])) && SameShape(f[k], Encoded(f[k]))
      {
        EncodedIsPlainCopy(f[k]);
      }
    case List(xs) =>
      forall i | 0 <= i < |xs|
        ensures Plain(Encoded(xs[i])) && SameShape(xs[i], Encoded(xs[i]))
      {
        EncodedIsPlainCopy(xs[i]);
      }
    case _ =>
  }

  /** Conversely, a plain value of the same shape is the copy: the copy is
      determined by these two properties. */
  lemma {:induction false} PlainCopyIsEncoded(v: Value, w: Value)
    requires Plain(w) && SameShape(v, w)
    ensures w == Encoded(v)
  {
    match v
    case Dict(_, f) =>
      forall k | k in f
        ensures w.fields[k] == Encoded(f[k])
      {
        PlainCopyIsEncoded(f[k], w.fields[k]);
      }
      assert w.fields == (map k | k in f :: Encoded(f[k]));
    case List(xs) =>
      forall i | 0 <= i < |xs|
        ensures w.items[i] == Encoded(xs[i])
      {
        PlainCopyIsEncoded(xs[i], w.items[i]);
      }
      assert w.items == seq(|xs|, i requires 0 <= i < |xs| => Encoded(xs[i]));
    case _ =>
  }

  lemma {:induction false} SameShapeReflexive(v: Value)
    ensures SameShape(v, v)
  {
    match v
    case Dict(_, f) =>
      forall k | k in f
        ensures SameShape(f[k], f[k])
      {
        SameShapeReflexive(f[k]);
      }
    case List(xs) =>
      forall i | 0 <= i < |xs|
        ensures SameShape(xs[i], xs[i])
      {
        SameShapeReflexive(xs[i]);
      }
    case _ =>
  }

  /** Copying a copy changes nothing. */
  lemma {:induction false} EncodedIdempotent(v: Value)
    ensures Encoded(Encoded(v)) == Encoded(v)
  {
    EncodedIsPlainCopy(v);
    SameShapeReflexive(Encoded(v));
    PlainCopyIsEncoded(Encoded(v), Encoded(v));
  }

  // ---------------------------------------------------------------------
  // parse_arxiv_url

  /** The two ways the parse fails: the failed `assert len(parts) == 2` (the
      last path segment does not hold exactly one 'v'), and the ValueError
      of `int()` on the text after the 'v'. Both carry the url. */
  datatype UrlError = NotOneV(url: string) | BadVersion(url: string)

  /** Splits `.../<id>v<n>` into the raw id and the version number; only the
      text after the last '/' is looked at. */
  function ParseArxivUrl(url: string): Result<(string, nat), UrlError>
  {
    var parts := Split(LastSegment(url), 'v');
    if |parts| != 2 then Err(NotOneV(url))
    else
      match ParseNat(parts[1])
      case None => Err(BadVersion(url))
      case Some(n) => Ok((parts[0], n))
  }

  /** The parse fails on its assertion exactly when the last segment does not
      hold one 'v'; in particular a last segment without any 'v' fails. */
  lemma ParseArxivUrlRejects(url: string)
    ensures Count(LastSegment(url), 'v') != 1 <==> ParseArxivUrl(url) == Err(NotOneV(url))
    ensures 'v' !in LastSegment(url) ==> ParseArxivUrl(url) == Err(NotOneV(url))
  {
    SplitPieces(LastSegment(url), 'v');
    CountZero(LastSegment(url), 'v');
  }

  /** A successful parse read an id without 'v' or '/', then a 'v', then a
      decimal number that is the version, and nothing else after the last
      '/'. */
  lemma ParseArxivUrlSound(url: string)
    requires ParseArxivUrl(url).Ok?
    ensures 'v' !in ParseArxivUrl(url).value.0 && '/' !in ParseArxivUrl(url).value.0
    ensures var id := ParseArxivUrl(url).value.0;
      |id| < |LastSegment(url)| && LastSegment(url) == id + "v" + LastSegment(url)[|id| + 1..]
    ensures var id := ParseArxivUrl(url).value.0;
      |id| < |LastSegment(url)| && ParseNat(LastSegment(url)[|id| + 1..]) == Some(ParseArxivUrl(url).value.1)
  {
    var seg := LastSegment(url);
    var parts := Split(seg, 'v');
    assert |parts| == 2 && ParseArxivUrl(url).value == (parts[0], ParseNat(parts[1]).value);
    SplitTwoPieces(seg, 'v');
    LastSegmentNoSlash(url);
    assert '/' !in parts[0] by {
      assert forall c :: c in parts[0] ==> c in seg;
    }
    assert seg == parts[0] + "v" + seg[|parts[0]| + 1..];
  }

  /** Every url ending in `/<id>v<n>` with no 'v' in the id parses back to
      the id and the number. */
  lemma ParseArxivUrlRoundTrip(prefix: string, id: string, n: nat)
    requires 'v' !in id && '/' !in id
    ensures ParseArxivUrl(prefix + "/" + id + "v" + Decimal(n)) == Ok((id, n))
  {
    ParseDecimal(n);
    ParseArxivUrlDigits(prefix, id, Decimal(n));
  }

  /** Any non-empty digit string is accepted as the version, leading zeros
      included, as `int('02') == 2`. */
  lemma ParseArxivUrlDigits(prefix: string, id: string, digits: string)
    requires 'v' !in id && '/' !in id
    requires digits != [] && AllDigits(digits)
    ensures ParseArxivUrl(prefix + "/" + id + "v" + digits) == Ok((id, DigitsValue(digits)))
  {
    assert forall c :: c in digits ==> IsDigit(c);
    var seg := id + "v" + digits;
    assert prefix + "/" + id + "v" + digits == prefix + "/" + seg;
    LastSegmentAfterSlash(prefix, seg);
    assert seg == Join([id, digits], 'v');
    SplitJoin([id, digits], 'v');
  }

  /** The example of the script's doc comment. */
  lemma ParseArxivUrlExample(url: string)
    requires url == "http://arxiv.org/abs/1512.08756v2"
    ensures ParseArxivUrl(url) == Ok(("1512.08756", 2))
  {
    var prefix, id := "http://arxiv.org/abs", "1512.08756";
    assert Decimal(2) == "2";
    assert url == prefix + "/" + id + "v" + Decimal(2) by {
      assert prefix + "/" + id + "v" + "2" == url;
    }
    ParseArxivUrlRoundTrip(prefix, id, 2);
  }

  // ---------------------------------------------------------------------
  // send_request

  /** The attempt, from `i` on, whose answer `send_request` returns: the
      first non-empty one, or the last allowed one when all are empty. */
  function UsedAttempt(fetch: Fetch, index: int, retries: nat, i: nat): (k: nat)
    requires 1 <= i <= retries
    ensures i <= k <= retries
    ensures forall n :: i <= n < k ==> fetch(index, n) == []
    ensures fetch(index, k) == [] ==> k == retries
    decreases retries - i
  {
    if fetch(index, i) != [] || i == retries then i else UsedAttempt(fetch, index, retries, i + 1)
  }

  /** Requests the page at `index` up to `retries` times while the answer is
      empty, sleeping after every empty answer but the last. With `retries`
      below 1 no request is made and the function falls off its end
      (`None`). Also returns how many requests and sleeps it made. */
  method SendRequest(fetch: Fetch, index: int, retries: int)
    returns (entries: Option<seq<Value>>, attempts: nat, sleeps: nat)
    ensures retries < 1 <==> entries == None
    ensures retries < 1 ==> attempts == 0
    ensures retries >= 1 ==> attempts == UsedAttempt(fetch, index, retries, 1)
    ensures retries >= 1 ==> 1 <= attempts <= retries && entries == Some(fetch(index, attempts))
    ensures forall n :: 1 <= n < attempts ==> fetch(index, n) == []
    ensures entries == Some([]) <==> retries >= 1 && forall n :: 1 <= n <= retries ==> fetch(index, n) == []
    ensures sleeps == if attempts == 0 then 0 else attempts - 1
  {
    entries, attempts, sleeps := None, 0, 0;
    var i := 1;
    while i <= retries
      invariant 1 <= i <= if retries >= 1 then retries else 1
      invariant forall n :: 1 <= n < i ==> fetch(index, n) == []
      invariant attempts == 0 && sleeps == i - 1
      decreases retries - i
    {
      var page := fetch(index, i);
      if |page| == 0 && i < retries {
        sleeps := sleeps + 1;
        i := i + 1;
        continue;
      }
      attempts := i;
      entries := Some(page);
      return;
    }
  }

  // ---------------------------------------------------------------------
  // Records and the merge rule

  /** A database entry: the plain copy of a feed entry with `_rawid` and
      `_version` added, and those two values. */
  datatype Record = Record(rawid: string, version: nat, doc: Value)

  /** The database: raw arXiv id to the latest record seen for it. */
  type Db = map<string, Record>

  /** Why a run aborts: an entry without a textual `id` (KeyError,
      TypeError), an id url that does not parse, or a zero page size
      (`range()` raises before the first page). */
  datatype SyncError = MissingId | BadUrl(err: UrlError) | ZeroStep

  /** `j['id']` as text. */
  function EntryId(j: Value): Result<string, SyncError>
  {
    match Get(j, "id")
    case Some(Str(url)) => Ok(url)
    case _ => Err(MissingId)
  }

  /** `j['_rawid'] = rawid; j['_version'] = version` on a dictionary. */
  function Annotate(j: Value, rawid: string, version: nat): (a: Value)
    requires j.Dict?
  {
    Dict(j.kind, j.fields["_rawid" := Str(rawid)]["_version" := Int(version)])
  }

  /** What the script makes of one feed entry. */
  function ToRecord(e: Value): Result<Record, SyncError>
  {
    var j := Encoded(e);
    match EntryId(j)
    case Err(err) => Err(err)
    case Ok(url) =>
      match ParseArxivUrl(url)
      case Err(u) => Err(BadUrl(u))
      case Ok((rawid, version)) => Ok(Record(rawid, version, Annotate(j, rawid, version)))
  }

  /** The records of a page, or the error of its first bad entry. */
  function Records(es: seq<Value>): (r: Result<seq<Record>, SyncError>)
    ensures r.Ok? ==> |r.value| == |es|
    decreases |es|
  {
    if es == [] then Ok([])
    else
      match Records(es[..|es| - 1])
      case Err(err) => Err(err)
      case Ok(rs) =>
        match ToRecord(es[|es| - 1])
        case Err(err) => Err(err)
        case Ok(rec) => Ok(rs + [rec])
  }

  /** An entry that does not parse after a prefix that does aborts the page
      with its error. */
  lemma {:induction false} RecordsPrefixError(es: seq<Value>, i: nat)
    requires i < |es| && Records(es[..i]).Ok? && ToRecord(es[i]).Err?
    ensures Records(es) == Err(ToRecord(es[i]).error)
    decreases |es|
  {
    if |es| == i + 1 {
      assert es[..|es| - 1] == es[..i];
    } else {
      var es' := es[..|es| - 1];
      assert es'[..i] == es[..i] && es'[i] == es[i];
      RecordsPrefixError(es', i);
    }
  }

  /** A page whose entries all parse gives their records, in order. */
  lemma {:induction false} RecordsAllParse(es: seq<Value>, rs: seq<Record>)
    requires |rs| == |es|
    requires forall k :: 0 <= k < |es| ==> ToRecord(es[k]) == Ok(rs[k])
    ensures Records(es) == Ok(rs)
    decreases |es|
  {
    if es != [] {
      RecordsAllParse(es[..|es| - 1], rs[..|rs| - 1]);
      assert rs == rs[..|rs| - 1] + [rs[|rs| - 1]];
    }
  }

  /** A page whose first bad entry is the one at `i` aborts with that entry's
      error, whatever follows it. */
  lemma {:induction false} RecordsFirstError(es: seq<Value>, i: nat)
    requires i < |es| && ToRecord(es[i]).Err?
    requires forall k :: 0 <= k < i ==> ToRecord(es[k]).Ok?
    ensures Records(es) == Err(ToRecord(es[i]).error)
    decreases |es|
  {
    if |es| == i + 1 {
      var rs := seq(i, k requires 0 <= k < i => ToRecord(es[k]).value);
      RecordsAllParse(es[..i], rs);
      assert es[..|es| - 1] == es[..i];
    } else {
      RecordsFirstError(es[..|es| - 1], i);
    }
  }

  /** The merge rule: the record goes in when its id is absent or its version
      is strictly greater than the stored one. */
  predicate IsNewer(db: Db, r: Record)
  {
    r.rawid !in db || r.version > db[r.rawid].version
  }

  /** The database after a page and the page's added and skipped counts. */
  datatype Tally = Tally(db: Db, added: nat, skipped: nat)

  /** The page loop over already-parsed records, in order. */
  function MergeAll(db: Db, rs: seq<Record>): (t: Tally)
    ensures t.added + t.skipped == |rs|
    decreases |rs|
  {
    if rs == [] then Tally(db, 0, 0)
    else
      var t := MergeAll(db, rs[..|rs| - 1]);
      var r := rs[|rs| - 1];
      if IsNewer(t.db, r) then Tally(t.db[r.rawid := r], t.added + 1, t.skipped)
      else Tally(t.db, t.added, t.skipped + 1)
  }

  /** One page of feed entries: the records, then the merge. */
  function MergePage(db: Db, es: seq<Value>): (r: Result<Tally, SyncError>)
    ensures r.Ok? ==> r.value.added + r.value.skipped == |es|
  {
    match Records(es)
    case Err(err) => Err(err)
    case Ok(rs) => Ok(MergeAll(db, rs))
  }

  /** Merging never removes an id and never lowers a stored version. */
  lemma {:induction false} MergeAllGrows(db: Db, rs: seq<Record>)
    ensures db.Keys <= MergeAll(db, rs).db.Keys
    ensures forall k :: k in db ==> db[k].version <= MergeAll(db, rs).db[k].version
    decreases |rs|
  {
    if rs != [] {
      MergeAllGrows(db, rs[..|rs| - 1]);
    }
  }

  /** An id that no record of the page carries keeps its entry, or its
      absence. */
  lemma {:induction false} MergeAllFrame(db: Db, rs: seq<Record>, k: string)
    requires forall i :: 0 <= i < |rs| ==> rs[i].rawid != k
    ensures k in MergeAll(db, rs).db <==> k in db
    ensures k in db ==> MergeAll(db, rs).db[k] == db[k]
    decreases |rs|
  {
    if rs != [] {
      MergeAllFrame(db, rs[..|rs| - 1], k);
    }
  }

  /** Every stored record was already stored or comes from the page, and is
      stored under its own id when the database started out that way. */
  lemma {:induction false} MergeAllKeepsKeys(db: Db, rs: seq<Record>)
    requires forall k :: k in db ==> db[k].rawid == k
    ensures forall k :: k in MergeAll(db, rs).db ==> MergeAll(db, rs).db[k].rawid == k
    ensures forall k :: k in MergeAll(db, rs).db ==> (k in db && MergeAll(db, rs).db[k] == db[k]) || MergeAll(db, rs).db[k] in rs
    decreases |rs|
  {
    if rs != [] {
      MergeAllKeepsKeys(db, rs[..|rs| - 1]);
      var t := MergeAll(db, rs[..|rs| - 1]);
      forall k | k in MergeAll(db, rs).db
        ensures (k in db && MergeAll(db, rs).db[k] == db[k]) || MergeAll(db, rs).db[k] in rs
      {
        if k in t.db && MergeAll(db, rs).db[k] == t.db[k] && t.db[k] in rs[..|rs| - 1] {
          var i :| 0 <= i < |rs| - 1 && rs[..|rs| - 1][i] == t.db[k];
          assert rs[i] == t.db[k];
        }
      }
    }
  }

  /** After a page, every record of the page is stored with at least its
      version. */
  lemma {:induction false} MergeAllCovers(db: Db, rs: seq<Record>)
    ensures forall i :: 0 <= i < |rs| ==>
      rs[i].rawid in MergeAll(db, rs).db && rs[i].version <= MergeAll(db, rs).db[rs[i].rawid].version
    decreases |rs|
  {
    if rs != [] {
      var rs' := rs[..|rs| - 1];
      MergeAllCovers(db, rs');
      var t := MergeAll(db, rs');
      MergeAllGrows(t.db, rs[|rs| - 1..]);
      assert MergeAll(t.db, rs[|rs| - 1..]).db == MergeAll(db, rs).db by {
        assert rs[|rs| - 1..][..0] == [];
      }
    }
  }

  /** A page whose every record is already stored with an equal or higher
      version adds nothing, skips everything and leaves the database as it
      was. */
  lemma {:induction false} MergeAllNothingNew(db: Db, rs: seq<Record>)
    requires forall i :: 0 <= i < |rs| ==> rs[i].rawid in db && rs[i].version <= db[rs[i].rawid].version
    ensures MergeAll(db, rs) == Tally(db, 0, |rs|)
    decreases |rs|
  {
    if rs != [] {
      MergeAllNothingNew(db, rs[..|rs| - 1]);
    }
  }

  /** Processing the same page again right after adds nothing and leaves the
      database unchanged. */
  lemma MergeAllIdempotent(db: Db, rs: seq<Record>)
    ensures MergeAll(MergeAll(db, rs).db, rs) == Tally(MergeAll(db, rs).db, 0, |rs|)
  {
    MergeAllCovers(db, rs);
    MergeAllNothingNew(MergeAll(db, rs).db, rs);
  }

  /** Two versions of one paper, met in either order, leave the higher one
      stored (when the database did not already hold a version at least as
      high). */
  lemma VersionMonotonicity(db: Db, a: Record, b: Record)
    requires a.rawid == b.rawid && a.version < b.version
    requires a.rawid in db ==> db[a.rawid].version < b.version
    ensures MergeAll(db, [a, b]).db[a.rawid] == b
    ensures MergeAll(db, [b, a]).db[a.rawid] == b
  {
    assert [a, b][..1] == [a] && [b, a][..1] == [b];
    assert [a][..0] == [] && [b][..0] == [];
    assert MergeAll(db, [a]).db == db[a.rawid := a] || MergeAll(db, [a]).db == db;
    assert MergeAll(db, [b]).db == db[b.rawid := b];
  }

  /** Of two records with the same id and version, newer than anything stored
      under that id, the first one seen stays. */
  lemma FirstSeenWinsTies(db: Db, a: Record, b: Record)
    requires a.rawid == b.rawid && a.version == b.version
    requires a.rawid in db ==> db[a.rawid].version < a.version
    ensures MergeAll(db, [a, b]) == Tally(db[a.rawid := a], 1, 1)
  {
    assert [a, b][..1] == [a];
    assert [a][..0] == [];
    assert MergeAll(db, [a]) == Tally(db[a.rawid := a], 1, 0);
  }

  // ---------------------------------------------------------------------
  // The paging loop of the script's main block

  /** `index` is one of the offsets `range(start, max, step)` still yields
      (the range counts down when `step` is negative). */
  predicate InRange(index: int, max: int, step: int)
  {
    if step > 0 then index < max else index > max
  }

  function Distance(index: int, max: int, step: int): nat
  {
    if step > 0 then (if index < max then max - index else 0)
    else (if index > max then index - max else 0)
  }

  /** The entries `send_request` returns for the page at `index` with its
      default number of attempts. */
  function Response(fetch: Fetch, index: int): seq<Value>
  {
    fetch(index, UsedAttempt(fetch, index, RETRIES, 1))
  }

  /** What the script prints for one page: its offset, how many entries came
      back, how many were added and how many were already known. */
  datatype PageLog = PageLog(offset: int, received: nat, added: nat, skipped: nat)

  /** The database, the total number added, and the pages, after some pages. */
  datatype Progress = Progress(db: Db, added: nat, pages: seq<PageLog>)

  /** How a page of entries is merged into the database. */
  type Merge = (Db, seq<Value>) -> Result<Tally, SyncError>

  /** `r` preceded by pages that added `added` records in all. */
  function After(added: nat, pages: seq<PageLog>, r: Result<Progress, SyncError>): Result<Progress, SyncError>
  {
    match r
    case Err(err) => Err(err)
    case Ok(p) => Ok(Progress(p.db, added + p.added, pages + p.pages))
  }

  lemma AfterNothing(r: Result<Progress, SyncError>)
    ensures After(0, [], r) == r
  {
    if r.Ok? {
      assert [] + r.value.pages == r.value.pages;
    }
  }

  /** The loop from offset `index` on: fetch the page, merge its entries,
      then stop after an empty page, or after a page that added nothing when
      `early` is set, or when the range is used up. */
  function Pages(db: Db, index: int, max: int, step: int, early: bool, fetch: Fetch, merge: Merge): Result<Progress, SyncError>
    requires step != 0
    decreases Distance(index, max, step)
  {
    if !InRange(index, max, step) then Ok(Progress(db, 0, []))
    else
      var entries := Response(fetch, index);
      match merge(db, entries)
      case Err(err) => Err(err)
      case Ok(t) =>
        var log := PageLog(index, |entries|, t.added, t.skipped);
        if |entries| == 0 || (t.added == 0 && early) then Ok(Progress(t.db, t.added, [log]))
        else After(t.added, [log], Pages(t.db, index + step, max, step, early, fetch, merge))
  }

  /** The outcome of a run: the database, the number of records added over
      all pages, the pages, and whether the database is saved. */
  datatype Outcome = Outcome(db: Db, addedTotal: nat, pages: seq<PageLog>, saved: bool)

  /** The whole main block from a loaded database: `range()` refuses a zero
      step, and the database is saved only when some record was added. */
  function Sync(db: Db, start: int, max: int, step: int, early: bool, fetch: Fetch): Result<Outcome, SyncError>
  {
    if step == 0 then Err(ZeroStep)
    else
      match Pages(db, start, max, step, early, fetch, MergePage)
      case Err(err) => Err(err)
      case Ok(p) => Ok(Outcome(p.db, p.added, p.pages, p.added > 0))
  }

  lemma AfterAfter(a: nat, p: seq<PageLog>, b: nat, q: seq<PageLog>, r: Result<Progress, SyncError>)
    ensures After(a, p, After(b, q, r)) == After(a + b, p + q, r)
  {
    if r.Ok? {
      assert p + (q + r.value.pages) == (p + q) + r.value.pages;
    }
  }

  /** One turn of the paging loop, seen from the start of the run: after the
      page at `index` the run has either stopped or goes on from the next
      offset with the merged database. */
  lemma PagesAdvance(db0: Db, start: int, max: int, step: int, early: bool, fetch: Fetch, merge: Merge,
                     total: nat, pages: seq<PageLog>, db: Db, index: int, t: Tally)
    requires step != 0 && InRange(index, max, step)
    requires Pages(db0, start, max, step, early, fetch, merge)
      == After(total, pages, Pages(db, index, max, step, early, fetch, merge))
    requires merge(db, Response(fetch, index)) == Ok(t)
    ensures var n := |Response(fetch, index)|;
      var log := PageLog(index, n, t.added, t.skipped);
      Pages(db0, start, max, step, early, fetch, merge)
        == if n == 0 || (t.added == 0 && early) then Ok(Progress(t.db, total + t.added, pages + [log]))
           else After(total + t.added, pages + [log], Pages(t.db, index + step, max, step, early, fetch, merge))
  {
    var log := PageLog(index, |Response(fetch, index)|, t.added, t.skipped);
    AfterAfter(total, pages, t.added, [log], Pages(t.db, index + step, max, step, early, fetch, merge));
  }

  /** The sum of the per-page added counts. */
  function SumAdded(pages: seq<PageLog>): nat
  {
    if pages == [] then 0 else pages[0].added + SumAdded(pages[1..])
  }

  /** No page is visited exactly when the range is empty from the start. */
  lemma PagesNone(db: Db, index: int, max: int, step: int, early: bool, fetch: Fetch, merge: Merge)
    requires step != 0 && Pages(db, index, max, step, early, fetch, merge).Ok?
    ensures Pages(db, index, max, step, early, fetch, merge).value.pages == [] <==> !InRange(index, max, step)
  {
  }

  /** The pages of a run are those at `index`, `index + step`, ... in order,
      all inside the range. */
  lemma {:induction false} PagesOffsets(db: Db, index: int, max: int, step: int, early: bool, fetch: Fetch, merge: Merge)
    requires step != 0 && Pages(db, index, max, step, early, fetch, merge).Ok?
    ensures var ps := Pages(db, index, max, step, early, fetch, merge).value.pages;
      ps != [] ==> ps[0].offset == index
    ensures var ps := Pages(db, index, max, step, early, fetch, merge).value.pages;
      forall k :: 0 < k < |ps| ==> ps[k].offset == ps[k - 1].offset + step
    ensures var ps := Pages(db, index, max, step, early, fetch, merge).value.pages;
      forall k :: 0 <= k < |ps| ==> InRange(ps[k].offset, max, step)
    decreases Distance(index, max, step)
  {
    if InRange(index, max, step) {
      var entries := Response(fetch, index);
      var t := merge(db, entries).value;
      var log := PageLog(index, |entries|, t.added, t.skipped);
      if !(|entries| == 0 || (t.added == 0 && early)) {
        var rest := Pages(t.db, index + step, max, step, early, fetch, merge).value.pages;
        PagesOffsets(t.db, index + step, max, step, early, fetch, merge);
        var ps := [log] + rest;
        forall k | 0 < k < |ps|
          ensures ps[k].offset == ps[k - 1].offset + step && InRange(ps[k].offset, max, step)
        {
          assert ps[k] == rest[k - 1];
          if k > 1 {
            assert ps[k - 1] == rest[k - 2];
          }
        }
      }
    }
  }

  /** Offsets that start at `index` and go up by `step` are `index + k * step`. */
  lemma {:induction false} OffsetsArithmetic(ps: seq<PageLog>, index: int, step: int)
    requires ps != [] ==> ps[0].offset == index
    requires forall k :: 0 < k < |ps| ==> ps[k].offset == ps[k - 1].offset + step
    ensures forall k :: 0 <= k < |ps| ==> ps[k].offset == index + k * step
    decreases |ps|
  {
    if ps != [] {
      var n := |ps| - 1;
      OffsetsArithmetic(ps[..n], index, step);
      if n > 0 {
        assert ps[n - 1] == ps[..n][n - 1];
        assert n * step == (n - 1) * step + step;
      }
    }
  }

  /** The total is the sum of the per-page added counts, the page that
      stopped the loop included; each page's log is the response's size and
      the counts of its merge. */
  lemma {:induction false} PagesTotal(db: Db, index: int, max: int, step: int, early: bool, fetch: Fetch, merge: Merge)
    requires step != 0 && Pages(db, index, max, step, early, fetch, merge).Ok?
    ensures var p := Pages(db, index, max, step, early, fetch, merge).value;
      p.added == SumAdded(p.pages)
    ensures var ps := Pages(db, index, max, step, early, fetch, merge).value.pages;
      forall k :: 0 <= k < |ps| ==>
        ps[k].received == |Response(fetch, ps[k].offset)|
    decreases Distance(index, max, step)
  {
    if InRange(index, max, step) {
      var entries := Response(fetch, index);
      var t := merge(db, entries).value;
      var log := PageLog(index, |entries|, t.added, t.skipped);
      if !(|entries| == 0 || (t.added == 0 && early)) {
        var rest := Pages(t.db, index + step, max, step, early, fetch, merge);
        PagesTotal(t.db, index + step, max, step, early, fetch, merge);
        var ps := [log] + rest.value.pages;
        assert ps[1..] == rest.value.pages;
        forall k | 1 <= k < |ps|
          ensures ps[k].received == |Response(fetch, ps[k].offset)|
        {
          assert ps[k] == rest.value.pages[k - 1];
        }
      } else {
        assert [log][1..] == [];
      }
    }
  }

  /** Every page but the last came back non-empty and, with early stop on,
      added something. */
  lemma {:induction false} PagesGoOn(db: Db, index: int, max: int, step: int, early: bool, fetch: Fetch, merge: Merge)
    requires step != 0 && Pages(db, index, max, step, early, fetch, merge).Ok?
    ensures var ps := Pages(db, index, max, step, early, fetch, merge).value.pages;
      forall k :: 0 <= k < |ps| - 1 ==> ps[k].received > 0 && (early ==> ps[k].added > 0)
    decreases Distance(index, max, step)
  {
    if InRange(index, max, step) {
      var entries := Response(fetch, index);
      var t := merge(db, entries).value;
      var log := PageLog(index, |entries|, t.added, t.skipped);
      if !(|entries| == 0 || (t.added == 0 && early)) {
        var rest := Pages(t.db, index + step, max, step, early, fetch, merge);
        PagesGoOn(t.db, index + step, max, step, early, fetch, merge);
        var ps := [log] + rest.value.pages;
        forall k | 1 <= k < |ps| - 1
          ensures ps[k].received > 0 && (early ==> ps[k].added > 0)
        {
          assert ps[k] == rest.value.pages[k - 1];
        }
      }
    }
  }

  /** A last page that came back non-empty and (with early stop on) added
      something ended the loop only because the range was used up. */
  lemma {:induction false} PagesStop(db: Db, index: int, max: int, step: int, early: bool, fetch: Fetch, merge: Merge)
    requires step != 0 && Pages(db, index, max, step, early, fetch, merge).Ok?
    ensures var ps := Pages(db, index, max, step, early, fetch, merge).value.pages;
      ps != [] && ps[|ps| - 1].received > 0 && !(early && ps[|ps| - 1].added == 0) ==>
        !InRange(ps[|ps| - 1].offset + step, max, step)
    decreases Distance(index, max, step)
  {
    if InRange(index, max, step) {
      var entries := Response(fetch, index);
      var t := merge(db, entries).value;
      if !(|entries| == 0 || (t.added == 0 && early)) {
        var rest := Pages(t.db, index + step, max, step, early, fetch, merge);
        PagesStop(t.db, index + step, max, step, early, fetch, merge);
        PagesNone(t.db, index + step, max, step, early, fetch, merge);
        var ps := [PageLog(index, |entries|, t.added, t.skipped)] + rest.value.pages;
        if rest.value.pages != [] {
          assert ps[|ps| - 1] == rest.value.pages[|rest.value.pages| - 1];
        }
      }
    }
  }

  /** Every page's added and skipped counts add up to the entries it
      received, when the page merge counts every entry once. */
  lemma {:induction false} PagesCounted(db: Db, index: int, max: int, step: int, early: bool, fetch: Fetch, merge: Merge)
    requires step != 0 && Pages(db, index, max, step, early, fetch, merge).Ok?
    requires forall db, es :: merge(db, es).Ok? ==> merge(db, es).value.added + merge(db, es).value.skipped == |es|
    ensures var ps := Pages(db, index, max, step, early, fetch, merge).value.pages;
      forall k :: 0 <= k < |ps| ==> ps[k].added + ps[k].skipped == ps[k].received
    decreases Distance(index, max, step)
  {
    if InRange(index, max, step) {
      var entries := Response(fetch, index);
      var t := merge(db, entries).value;
      var log := PageLog(index, |entries|, t.added, t.skipped);
      if !(|entries| == 0 || (t.added == 0 && early)) {
        var rest := Pages(t.db, index + step, max, step, early, fetch, merge);
        PagesCounted(t.db, index + step, max, step, early, fetch, merge);
        var ps := [log] + rest.value.pages;
        forall k | 1 <= k < |ps|
          ensures ps[k].added + ps[k].skipped == ps[k].received
        {
          assert ps[k] == rest.value.pages[k - 1];
        }
      }
    }
  }

  /** The offsets a run visits are `start + k * step`, all inside the range;
      none is visited exactly when the range is empty. */
  lemma SyncOffsets(db: Db, start: int, max: int, step: int, early: bool, fetch: Fetch)
    requires Sync(db, start, max, step, early, fetch).Ok?
    ensures var ps := Sync(db, start, max, step, early, fetch).value.pages;
      forall k :: 0 <= k < |ps| ==> ps[k].offset == start + k * step && InRange(ps[k].offset, max, step)
    ensures Sync(db, start, max, step, early, fetch).value.pages == [] <==> !InRange(start, max, step)
  {
    var ps := Pages(db, start, max, step, early, fetch, MergePage).value.pages;
    assert Sync(db, start, max, step, early, fetch).value.pages == ps;
    PagesOffsets(db, start, max, step, early, fetch, MergePage);
    OffsetsArithmetic(ps, start, step);
    PagesNone(db, start, max, step, early, fetch, MergePage);
  }

  /** Every page of a run but the last was non-empty and, with early stop
      on, added something. */
  lemma SyncGoesOn(db: Db, start: int, max: int, step: int, early: bool, fetch: Fetch)
    requires Sync(db, start, max, step, early, fetch).Ok?
    ensures var ps := Sync(db, start, max, step, early, fetch).value.pages;
      forall k :: 0 <= k < |ps| - 1 ==> ps[k].received > 0 && (early ==> ps[k].added > 0)
  {
    assert step != 0;
    var p := Pages(db, start, max, step, early, fetch, MergePage);
    assert p.Ok? && Sync(db, start, max, step, early, fetch).value.pages == p.value.pages;
    PagesGoOn(db, start, max, step, early, fetch, MergePage);
  }

  /** A last page that was non-empty and (with early stop on) added
      something was the last offset of the range. */
  lemma SyncEndsAtRange(db: Db, start: int, max: int, step: int, early: bool, fetch: Fetch)
    requires Sync(db, start, max, step, early, fetch).Ok?
    ensures var ps := Sync(db, start, max, step, early, fetch).value.pages;
      ps != [] && ps[|ps| - 1].received > 0 && !(early && ps[|ps| - 1].added == 0) ==>
        !InRange(ps[|ps| - 1].offset + step, max, step)
  {
    assert step != 0;
    var p := Pages(db, start, max, step, early, fetch, MergePage);
    assert p.Ok? && Sync(db, start, max, step, early, fetch).value.pages == p.value.pages;
    PagesStop(db, start, max, step, early, fetch, MergePage);
  }

  /** Why a run stopped: each page but the last was non-empty and, with early
      stop on, added something; a last page that was non-empty and (with
      early stop on) added something was the last offset of the range. */
  lemma SyncStops(db: Db, start: int, max: int, step: int, early: bool, fetch: Fetch)
    requires Sync(db, start, max, step, early, fetch).Ok?
    ensures var ps := Sync(db, start, max, step, early, fetch).value.pages;
      forall k :: 0 <= k < |ps| - 1 ==> ps[k].received > 0 && (early ==> ps[k].added > 0)
    ensures var ps := Sync(db, start, max, step, early, fetch).value.pages;
      ps != [] && ps[|ps| - 1].received > 0 && !(early && ps[|ps| - 1].added == 0) ==>
        !InRange(ps[|ps| - 1].offset + step, max, step)
  {
    SyncGoesOn(db, start, max, step, early, fetch);
    SyncEndsAtRange(db, start, max, step, early, fetch);
  }

  /** A page merge that never drops an id nor lowers a stored version. */
  ghost predicate Grows(merge: Merge)
  {
    forall db, es :: merge(db, es).Ok? ==>
      db.Keys <= merge(db, es).value.db.Keys &&
      forall k :: k in db ==> db[k].version <= merge(db, es).value.db[k].version
  }

  /** Over a whole run no id is dropped and no stored version goes down. */
  lemma {:induction false} PagesGrow(db: Db, index: int, max: int, step: int, early: bool, fetch: Fetch, merge: Merge)
    requires step != 0 && Pages(db, index, max, step, early, fetch, merge).Ok?
    requires Grows(merge)
    ensures var d := Pages(db, index, max, step, early, fetch, merge).value.db;
      db.Keys <= d.Keys && forall k :: k in db ==> db[k].version <= d[k].version
    decreases Distance(index, max, step)
  {
    if InRange(index, max, step) {
      var t := merge(db, Response(fetch, index)).value;
      if !(Response(fetch, index) == [] || (t.added == 0 && early)) {
        PagesGrow(t.db, index + step, max, step, early, fetch, merge);
      }
    }
  }

  lemma MergePageGrows()
    ensures Grows(MergePage)
  {
    forall db, es | MergePage(db, es).Ok?
      ensures db.Keys <= MergePage(db, es).value.db.Keys
      ensures forall k :: k in db ==> db[k].version <= MergePage(db, es).value.db[k].version
    {
      MergeAllGrows(db, Records(es).value);
    }
  }

  /** A run reports the sum of its per-page added counts, saves exactly when
      some page added a record, accounts for every entry of every page, and
      loses no id and no version. */
  lemma SyncSaved(db: Db, start: int, max: int, step: int, early: bool, fetch: Fetch)
    requires Sync(db, start, max, step, early, fetch).Ok?
    ensures var o := Sync(db, start, max, step, early, fetch).value;
      o.addedTotal == SumAdded(o.pages) &&
      (o.saved <==> exists k :: 0 <= k < |o.pages| && o.pages[k].added > 0)
    ensures var o := Sync(db, start, max, step, early, fetch).value;
      forall k :: 0 <= k < |o.pages| ==> o.pages[k].added + o.pages[k].skipped == o.pages[k].received
    ensures var o := Sync(db, start, max, step, early, fetch).value;
      db.Keys <= o.db.Keys && forall k :: k in db ==> db[k].version <= o.db[k].version
  {
    PagesCounted(db, start, max, step, early, fetch, MergePage);
    PagesTotal(db, start, max, step, early, fetch, MergePage);
    var o := Sync(db, start, max, step, early, fetch).value;
    SumAddedPositive(o.pages);
    MergePageGrows();
    PagesGrow(db, start, max, step, early, fetch, MergePage);
  }

  /** With early stop on, a first page whose records the database already
      holds at an equal or higher version ends the run right there: nothing
      added, all skipped, nothing saved. */
  lemma SyncStopsWhenNothingNew(db: Db, start: int, max: int, step: int, fetch: Fetch)
    requires step != 0 && InRange(start, max, step)
    requires Records(Response(fetch, start)).Ok?
    requires var rs := Records(Response(fetch, start)).value;
      forall i :: 0 <= i < |rs| ==> rs[i].rawid in db && rs[i].version <= db[rs[i].rawid].version
    ensures var n := |Response(fetch, start)|;
      Sync(db, start, max, step, true, fetch) == Ok(Outcome(db, 0, [PageLog(start, n, 0, n)], false))
  {
    MergeAllNothingNew(db, Records(Response(fetch, start)).value);
  }

  /** The first page of a run that goes through merged without error, and
      the rest of the run kept everything that merge stored. */
  lemma PagesFirst(db: Db, index: int, max: int, step: int, early: bool, fetch: Fetch, merge: Merge)
    requires step != 0 && InRange(index, max, step)
    requires Pages(db, index, max, step, early, fetch, merge).Ok? && Grows(merge)
    ensures merge(db, Response(fetch, index)).Ok?
    ensures var t := merge(db, Response(fetch, index)).value;
      var d := Pages(db, index, max, step, early, fetch, merge).value.db;
      t.db.Keys <= d.Keys && forall k :: k in t.db ==> t.db[k].version <= d[k].version
  {
    var t := merge(db, Response(fetch, index)).value;
    if !(Response(fetch, index) == [] || (t.added == 0 && early)) {
      PagesGrow(t.db, index + step, max, step, early, fetch, merge);
    }
  }

  /** Every page of a run that goes through was accepted by the merge: a
      page the merge refuses ends the whole run with its error. */
  lemma {:induction false} PagesAccepted(db: Db, index: int, max: int, step: int, early: bool, fetch: Fetch, merge: Merge,
                                         accepts: seq<Value> -> bool)
    requires step != 0 && Pages(db, index, max, step, early, fetch, merge).Ok?
    requires forall db, es :: merge(db, es).Ok? ==> accepts(es)
    ensures var ps := Pages(db, index, max, step, early, fetch, merge).value.pages;
      forall k :: 0 <= k < |ps| ==> accepts(Response(fetch, ps[k].offset))
    decreases Distance(index, max, step)
  {
    if InRange(index, max, step) {
      var entries := Response(fetch, index);
      var t := merge(db, entries).value;
      var log := PageLog(index, |entries|, t.added, t.skipped);
      if !(|entries| == 0 || (t.added == 0 && early)) {
        var rest := Pages(t.db, index + step, max, step, early, fetch, merge);
        PagesAccepted(t.db, index + step, max, step, early, fetch, merge, accepts);
        var ps := [log] + rest.value.pages;
        forall k | 1 <= k < |ps|
          ensures accepts(Response(fetch, ps[k].offset))
        {
          assert ps[k] == rest.value.pages[k - 1];
        }
      }
    }
  }

  /** A run that goes through parsed every entry of every page it visited;
      one entry without an id or with a bad id url anywhere aborts the run. */
  lemma SyncAllParsed(db: Db, start: int, max: int, step: int, early: bool, fetch: Fetch)
    requires Sync(db, start, max, step, early, fetch).Ok?
    ensures var ps := Sync(db, start, max, step, early, fetch).value.pages;
      forall k :: 0 <= k < |ps| ==> Records(Response(fetch, ps[k].offset)).Ok?
  {
    var ps := Pages(db, start, max, step, early, fetch, MergePage).value.pages;
    assert Sync(db, start, max, step, early, fetch).value.pages == ps;
    PagesAccepted(db, start, max, step, early, fetch, MergePage, es => Records(es).Ok?);
  }

  /** Running again over the same answers right after a run, with early stop
      on, stops after the first page and adds nothing. */
  lemma SyncRerun(db: Db, start: int, max: int, step: int, fetch: Fetch)
    requires step != 0 && InRange(start, max, step)
    requires Sync(db, start, max, step, true, fetch).Ok?
    ensures var d := Sync(db, start, max, step, true, fetch).value.db;
      var n := |Response(fetch, start)|;
      Sync(d, start, max, step, true, fetch) == Ok(Outcome(d, 0, [PageLog(start, n, 0, n)], false))
  {
    MergePageGrows();
    PagesFirst(db, start, max, step, true, fetch, MergePage);
    var rs := Records(Response(fetch, start)).value;
    MergeAllCovers(db, rs);
    var d := Pages(db, start, max, step, true, fetch, MergePage).value.db;
    SyncStopsWhenNothingNew(d, start, max, step, fetch);
  }

  lemma {:induction false} SumAddedPositive(pages: seq<PageLog>)
    ensures SumAdded(pages) > 0 <==> exists k :: 0 <= k < |pages| && pages[k].added > 0
  {
    if pages != [] {
      SumAddedPositive(pages[1..]);
      if SumAdded(pages[1..]) > 0 {
        var k :| 0 <= k < |pages[1..]| && pages[1..][k].added > 0;
        assert pages[k + 1].added > 0;
      }
      if exists k :: 0 <= k < |pages| && pages[k].added > 0 {
        var k :| 0 <= k < |pages| && pages[k].added > 0;
        if k > 0 {
          assert pages[1..][k - 1].added > 0;
        }
      }
    }
  }

  /** The first lines of the script's `for e in entries` loop: the plain
      copy, the id url, and the copy annotated with raw id and version. */
  method ParseEntry(e: Value) returns (r: Result<Record, SyncError>)
    ensures r == ToRecord(e)
  {
    var j := EncodeFeedparserDict(e);
    var id := EntryId(j);
    if id.Err? {
      return Err(id.error);
    }
    var parsed := ParseArxivUrl(id.value);
    if parsed.Err? {
      return Err(BadUrl(parsed.error));
    }
    var (rawid, version) := parsed.value;
    return Ok(Record(rawid, version, Annotate(j, rawid, version)));
  }

  /** The body of the script's `for e in entries` loop: copy, parse and merge
      each entry in turn, aborting on the first entry that does not parse. */
  method MergeEntries(db0: Db, entries: seq<Value>) returns (r: Result<Tally, SyncError>)
    ensures r == MergePage(db0, entries)
  {
    var db := db0;
    ghost var rs: seq<Record> := [];
    var numAdded, numSkipped := 0, 0;
    for i := 0 to |entries|
      invariant Records(entries[..i]) == Ok(rs)
      invariant MergeAll(db0, rs) == Tally(db, numAdded, numSkipped)
    {
      var parsed := ParseEntry(entries[i]);
      if parsed.Err? {
        RecordsPrefixError(entries, i);
        return Err(parsed.error);
      }
      var rec := parsed.value;
      if IsNewer(db, rec) {
        db := db[rec.rawid := rec];
        numAdded := numAdded + 1;
      } else {
        numSkipped := numSkipped + 1;
      }
      assert entries[..i + 1][..i] == entries[..i];
      rs := rs + [rec];
    }
    assert entries[..|entries|] == entries;
    return Ok(Tally(db, numAdded, numSkipped));
  }

  /** One page: `send_request` with its default number of attempts, then the
      merge of the entries it returned. `merge` names the page merge for the
      proof of the paging loop; it is `MergePage` itself, passed as a ghost
      parameter only so that the loop's proof does not unfold the merge. */
  method FetchPage(db: Db, index: int, fetch: Fetch, ghost merge: Merge) returns (r: Result<Tally, SyncError>, received: nat)
    requires forall db, es {:trigger MergePage(db, es)} :: merge(db, es) == MergePage(db, es)
    ensures received == |Response(fetch, index)|
    ensures r == merge(db, Response(fetch, index))
  {
    var response, _, _ := SendRequest(fetch, index, RETRIES);
    var entries := response.value;
    received := |entries|;
    r := MergeEntries(db, entries);
  }

  /** The paging loop of the main block, proved for a page merge `merge` that
      agrees with `MergePage`. `Run` passes `MergePage` itself; the ghost
      parameter only keeps the merge folded while the loop is proved. */
  method Paging(db0: Db, start: int, max: int, step: int, early: bool, fetch: Fetch, ghost merge: Merge)
    returns (r: Result<Progress, SyncError>)
    requires step != 0
    requires forall db, es {:trigger MergePage(db, es)} :: merge(db, es) == MergePage(db, es)
    ensures r == Pages(db0, start, max, step, early, fetch, merge)
  {
    var db := db0;
    var numAddedTotal := 0;
    var pages: seq<PageLog> := [];
    var index := start;
    AfterNothing(Pages(db, index, max, step, early, fetch, merge));
    while InRange(index, max, step)
      invariant Pages(db0, start, max, step, early, fetch, merge)
        == After(numAddedTotal, pages, Pages(db, index, max, step, early, fetch, merge))
      decreases Distance(index, max, step)
    {
      var merged, received := FetchPage(db, index, fetch, merge);
      if merged.Err? {
        return Err(merged.error);
      }
      var Tally(db', numAdded, numSkipped) := merged.value;
      PagesAdvance(db0, start, max, step, early, fetch, merge, numAddedTotal, pages, db, index, merged.value);
      db := db';
      numAddedTotal := numAddedTotal + numAdded;
      pages := pages + [PageLog(index, received, numAdded, numSkipped)];
      if received == 0 {
        break;
      }
      if numAdded == 0 && early {
        break;
      }
      index := index + step;
    }
    if !InRange(index, max, step) {
      assert pages + [] == pages;
    }
    return Ok(Progress(db, numAddedTotal, pages));
  }

  /** The script's main block after loading the database `db0`: `start`,
      `max` and `step` are `--start-index`, `--max-index` and
      `--results-per-iteration`; `early` is the value of the
      `--no-break-on-no-added` option, true unless the flag is given. The
      database is saved only when some record was added. */
  method Run(db0: Db, start: int, max: int, step: int, early: bool, fetch: Fetch)
    returns (r: Result<Outcome, SyncError>)
    ensures r == Sync(db0, start, max, step, early, fetch)
  {
    if step == 0 {
      return Err(ZeroStep);
    }
    var p := Paging(db0, start, max, step, early, fetch, MergePage);
    if p.Err? {
      return Err(p.error);
    }
    var Progress(db, numAddedTotal, pages) := p.value;
    return Ok(Outcome(db, numAddedTotal, pages, numAddedTotal > 0));
  }
}
