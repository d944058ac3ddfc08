/** The format catalog builder: the part of the fetch thread that turns the
    external tool's `formats` array into the de-duplicated list of quality
    choices (youtube_downloader_gui.py, lines 121-155). */
module Formats {
  import opened PyValues

  /** One element of the `formats` array of the tool's JSON document, limited
      to the keys the builder reads. */
  datatype RawFormat = RawFormat(
    formatId: Field<string>,
    ext: Field<string>,
    vcodec: Field<string>,
    acodec: Field<string>,
    resolution: Field<string>,
    fps: Field<int>,
    filesize: Field<int>,
    filesizeApprox: Field<int>)

  /** One quality choice. `id`, `resolution` and `hasAudio` are the keys of
      the dictionary the builder appends; `ext`, `fps` and `size` are the
      values its `description` text is rendered from. `size` is `None` when
      the description says "Unknown". */
  datatype Entry = Entry(
    id: Option<string>,
    ext: Option<string>,
    resolution: Option<string>,
    fps: Option<int>,
    hasAudio: bool,
    size: Option<int>)

  /** The identity used for de-duplication: two entries with the same
      resolution and audio presence are duplicates. */
  datatype Key = Key(resolution: Option<string>, hasAudio: bool)

  function KeyOf(e: Entry): Key {
    Key(e.resolution, e.hasAudio)
  }

  const AudioOnly: string := "audio only"
  const NoCodec: string := "none"

  /** The filter of the builder: `f.get('vcodec') != 'none'`. */
  predicate CarriesVideo(f: RawFormat) {
    Get(f.vcodec) != Some(NoCodec)
  }

  /** Whether a record passes the filter, in terms of the JSON it came from:
      only a `vcodec` that is the string "none" drops it; a missing or null
      `vcodec` keeps it. */
  lemma CarriesVideoRule(f: RawFormat)
    ensures CarriesVideo(f) <==> f.vcodec != Val(NoCodec)
    ensures f.vcodec.Absent? ==> CarriesVideo(f)
  {
  }

  /** The size shown for a record: `filesize or filesize_approx`, where a
      zero or missing size counts as unknown. */
  function SizeOf(f: RawFormat): (size: Option<int>)
    ensures size.Some? ==> size.value != 0
    ensures f.filesize.Val? && f.filesize.value != 0 ==> size == Some(f.filesize.value)
    ensures !(f.filesize.Val? && f.filesize.value != 0) ==>
      size == (if f.filesizeApprox.Val? && f.filesizeApprox.value != 0
               then Some(f.filesizeApprox.value) else None)
  {
    var s := Or(Get(f.filesize), DictGetOr(f.filesizeApprox, 0));
    if Truthy(s) then s else None
  }

  /** The entry derived from one record that passed the filter. */
  function Derive(f: RawFormat): (e: Entry)
    ensures e.id == (if f.formatId.Val? then Some(f.formatId.value) else None)
    ensures e.ext == (if f.ext.Val? then Some(f.ext.value) else None)
    ensures f.resolution.Absent? ==> e.resolution == Some(AudioOnly)
    ensures f.resolution.Null? ==> e.resolution == None
    ensures f.resolution.Val? ==> e.resolution == Some(f.resolution.value)
    ensures f.fps.Absent? ==> e.fps == Some(0)
    ensures f.fps.Null? ==> e.fps == None
    ensures f.fps.Val? ==> e.fps == Some(f.fps.value)
    ensures e.hasAudio <==> !(f.acodec.Absent? || f.acodec == Val(NoCodec))
    ensures e.size == SizeOf(f)
  {
    Entry(
      Get(f.formatId),
      Get(f.ext),
      DictGetOr(f.resolution, AudioOnly),
      DictGetOr(f.fps, 0),
      DictGetOr(f.acodec, NoCodec) != Some(NoCodec),
      SizeOf(f))
  }

  /** The first loop of the builder: the derived entries of the records that
      carry video, in input order. */
  function VideoEntries(fs: seq<RawFormat>): (r: seq<Entry>)
    ensures |r| <= |fs|
    ensures forall e :: e in r ==> exists f :: f in fs && CarriesVideo(f) && Derive(f) == e
    ensures forall f :: f in fs && CarriesVideo(f) ==> Derive(f) in r
  {
    if fs == [] then
      []
    else
      var init := fs[..|fs| - 1];
      var f := fs[|fs| - 1];
      assert fs == init + [f];
      var p := VideoEntries(init);
      if CarriesVideo(f) then p + [Derive(f)] else p
  }

  /** The filter and derivation work record by record, so they distribute
      over concatenation. */
  lemma {:induction false} VideoEntriesAppend(a: seq<RawFormat>, b: seq<RawFormat>)
    ensures VideoEntries(a + b) == VideoEntries(a) + VideoEntries(b)
    decreases |b|
  {
    if b == [] {
      assert a + b == a;
    } else {
      var init := b[..|b| - 1];
      assert (a + b)[..|a + b| - 1] == a + init;
      assert (a + b)[|a + b| - 1] == b[|b| - 1];
      VideoEntriesAppend(a, init);
    }
  }

  /** The keys occurring in a list of entries. */
  function KeysOf(s: seq<Entry>): set<Key> {
    set e | e in s :: KeyOf(e)
  }

  lemma KeysOfAppend(a: seq<Entry>, b: seq<Entry>)
    ensures KeysOf(a + b) == KeysOf(a) + KeysOf(b)
  {
    forall k | k in KeysOf(a + b) ensures k in KeysOf(a) + KeysOf(b) {
      var e :| e in a + b && KeyOf(e) == k;
    }
    forall k | k in KeysOf(a) + KeysOf(b) ensures k in KeysOf(a + b) {
      if k in KeysOf(a) {
        var e :| e in a && KeyOf(e) == k;
        assert e in a + b;
      } else {
        var e :| e in b && KeyOf(e) == k;
        assert e in a + b;
      }
    }
  }

  /** No two entries share a key. */
  predicate UniqueKeys(s: seq<Entry>) {
    forall i, j :: 0 <= i < j < |s| ==> KeyOf(s[i]) != KeyOf(s[j])
  }

  /** The second loop of the builder: walk the entries in order and keep one
      only if its key has not been seen. The result has unique keys, covers
      every key of the input, holds only input entries, and has one entry
      per distinct key. */
  function Dedup(s: seq<Entry>): (r: seq<Entry>)
    ensures UniqueKeys(r)
    ensures KeysOf(r) == KeysOf(s)
    ensures forall e :: e in r ==> e in s
    ensures |r| <= |s|
  {
    if s == [] then
      []
    else
      var init := s[..|s| - 1];
      var x := s[|s| - 1];
      assert s == init + [x];
      KeysOfAppend(init, [x]);
      var p := Dedup(init);
      if KeyOf(x) in KeysOf(p) then
        p
      else
        KeysOfAppend(p, [x]);
        assert forall i :: 0 <= i < |p| ==> KeyOf(p[i]) in KeysOf(p);
        p + [x]
  }

  /** The catalog has exactly one entry per distinct key of its input. */
  lemma {:induction false} DedupLengthIsKeyCount(s: seq<Entry>)
    ensures |Dedup(s)| == |KeysOf(s)|
  {
    if s != [] {
      var init := s[..|s| - 1];
      var x := s[|s| - 1];
      var p := Dedup(init);
      DedupLengthIsKeyCount(init);
      assert s == init + [x];
      KeysOfAppend(init, [x]);
      assert KeysOf([x]) == {KeyOf(x)};
      if KeyOf(x) !in KeysOf(p) {
        assert KeysOf(s) == KeysOf(init) + {KeyOf(x)};
        assert |KeysOf(s)| == |KeysOf(init)| + 1;
      } else {
        assert KeysOf(s) == KeysOf(init);
      }
    }
  }

  /** The position of the first entry of `s` with key `k`. */
  function FirstIndex(s: seq<Entry>, k: Key): (i: nat)
    requires k in KeysOf(s)
    ensures i < |s| && KeyOf(s[i]) == k
    ensures forall j :: 0 <= j < i ==> KeyOf(s[j]) != k
  {
    if KeyOf(s[0]) == k then
      0
    else
      assert k in KeysOf(s[1..]) by {
        var e :| e in s && KeyOf(e) == k;
        var m :| 0 <= m < |s| && s[m] == e;
        assert s[1..][m - 1] == e;
      }
      1 + FirstIndex(s[1..], k)
  }

  /** Any position that holds key `k` with no earlier `k` is the first one. */
  lemma FirstIndexIs(s: seq<Entry>, k: Key, i: nat)
    requires i < |s| && KeyOf(s[i]) == k
    requires forall j :: 0 <= j < i ==> KeyOf(s[j]) != k
    ensures k in KeysOf(s) && FirstIndex(s, k) == i
  {
    assert s[i] in s;
  }

  /** A key already present before the last entry has the same first
      position with or without that entry. */
  lemma FirstIndexOfPrefix(s: seq<Entry>, k: Key)
    requires s != [] && k in KeysOf(s[..|s| - 1])
    ensures k in KeysOf(s) && FirstIndex(s, k) == FirstIndex(s[..|s| - 1], k)
  {
    var init := s[..|s| - 1];
    var m := FirstIndex(init, k);
    assert s[m] == init[m];
    assert forall j :: 0 <= j < m ==> s[j] == init[j];
    FirstIndexIs(s, k, m);
  }

  /** Every key the output holds is an input key. */
  lemma DedupKeysAreInputKeys(s: seq<Entry>)
    ensures forall i :: 0 <= i < |Dedup(s)| ==> KeyOf(Dedup(s)[i]) in KeysOf(s)
  {
    var r := Dedup(s);
    forall i | 0 <= i < |r| ensures KeyOf(r[i]) in KeysOf(s) {
      assert r[i] in r;
    }
  }

  /** First occurrence wins: each kept entry is the first input entry with
      its key. */
  lemma {:induction false} DedupKeepsFirst(s: seq<Entry>)
    ensures forall i :: 0 <= i < |Dedup(s)| ==>
      KeyOf(Dedup(s)[i]) in KeysOf(s) && Dedup(s)[i] == s[FirstIndex(s, KeyOf(Dedup(s)[i]))]
  {
    DedupKeysAreInputKeys(s);
    if s != [] {
      var init := s[..|s| - 1];
      var x := s[|s| - 1];
      var p := Dedup(init);
      var r := Dedup(s);
      DedupKeepsFirst(init);
      DedupKeysAreInputKeys(init);
      forall i | 0 <= i < |p| ensures p[i] == s[FirstIndex(s, KeyOf(p[i]))] {
        FirstIndexOfPrefix(s, KeyOf(p[i]));
      }
      if KeyOf(x) !in KeysOf(p) {
        LastIsFirst(s);
        assert r == p + [x];
      }
    }
  }

  /** When the last entry's key does not occur before it, the last position
      is the first position of that key. */
  lemma LastIsFirst(s: seq<Entry>)
    requires s != [] && KeyOf(s[|s| - 1]) !in KeysOf(Dedup(s[..|s| - 1]))
    ensures KeyOf(s[|s| - 1]) in KeysOf(s) && FirstIndex(s, KeyOf(s[|s| - 1])) == |s| - 1
  {
    var init := s[..|s| - 1];
    forall j | 0 <= j < |s| - 1 ensures KeyOf(s[j]) != KeyOf(s[|s| - 1]) {
      assert s[j] == init[j];
      assert init[j] in init;
    }
    FirstIndexIs(s, KeyOf(s[|s| - 1]), |s| - 1);
  }

  /** Order is kept: the kept entries appear in the order of the first
      occurrences of their keys. */
  lemma {:induction false} DedupKeepsOrder(s: seq<Entry>)
    ensures forall i, j :: 0 <= i < j < |Dedup(s)| ==>
      KeyOf(Dedup(s)[i]) in KeysOf(s) && KeyOf(Dedup(s)[j]) in KeysOf(s) &&
      FirstIndex(s, KeyOf(Dedup(s)[i])) < FirstIndex(s, KeyOf(Dedup(s)[j]))
  {
    DedupKeysAreInputKeys(s);
    if s != [] {
      var init := s[..|s| - 1];
      var x := s[|s| - 1];
      var p := Dedup(init);
      var r := Dedup(s);
      DedupKeepsOrder(init);
      DedupKeysAreInputKeys(init);
      forall i | 0 <= i < |p|
        ensures FirstIndex(s, KeyOf(p[i])) == FirstIndex(init, KeyOf(p[i])) < |s| - 1
      {
        FirstIndexOfPrefix(s, KeyOf(p[i]));
      }
      if KeyOf(x) !in KeysOf(p) {
        LastIsFirst(s);
        assert r == p + [x];
      }
    }
  }

  /** A list whose keys are already unique is left as it is. */
  lemma {:induction false} DedupOfUnique(s: seq<Entry>)
    requires UniqueKeys(s)
    ensures Dedup(s) == s
  {
    if s != [] {
      var init := s[..|s| - 1];
      var x := s[|s| - 1];
      DedupOfUnique(init);
      forall e | e in init ensures KeyOf(e) != KeyOf(x) {
        var m :| 0 <= m < |init| && init[m] == e;
        assert s[m] == e;
      }
      assert s == init + [x];
    }
  }

  /** De-duplicating twice is de-duplicating once. */
  lemma DedupIdempotent(s: seq<Entry>)
    ensures Dedup(Dedup(s)) == Dedup(s)
  {
    DedupOfUnique(Dedup(s));
  }

  /** The whole builder: filter, derive, de-duplicate. The catalog has unique
      keys, holds only entries derived from records that carry video, has an
      entry for the key of every record that does, and is never longer than
      the input. */
  function BuildCatalog(fs: seq<RawFormat>): (r: seq<Entry>)
    ensures UniqueKeys(r)
    ensures forall e :: e in r ==> exists f :: f in fs && CarriesVideo(f) && Derive(f) == e
    ensures forall f :: f in fs && CarriesVideo(f) ==> KeyOf(Derive(f)) in KeysOf(r)
    ensures |r| <= |fs|
  {
    var v := VideoEntries(fs);
    var r := Dedup(v);
    assert forall f :: f in fs && CarriesVideo(f) ==> KeyOf(Derive(f)) in KeysOf(v);
    r
  }

  /** A record whose `vcodec` is "none" has no effect on the catalog, wherever
      it stands in the input. */
  lemma AudioOnlyRecordIgnored(a: seq<RawFormat>, f: RawFormat, b: seq<RawFormat>)
    requires f.vcodec == Val(NoCodec)
    ensures BuildCatalog(a + [f] + b) == BuildCatalog(a + b)
  {
    VideoEntriesAppend(a + [f], b);
    VideoEntriesAppend(a, [f]);
    VideoEntriesAppend(a, b);
    assert VideoEntries([f]) == [] by {
      assert [f][..0] == [];
    }
  }

  /** The builder as the source writes it: one loop that filters and derives,
      then one loop that keeps the first entry of each key using a set of
      keys already seen. */
  method ProcessFormats(formats: seq<RawFormat>) returns (uniqueFormats: seq<Entry>)
    ensures uniqueFormats == BuildCatalog(formats)
  {
    var videoFormats: seq<Entry> := [];
    var i := 0;
    while i < |formats|
      invariant 0 <= i <= |formats|
      invariant videoFormats == VideoEntries(formats[..i])
    {
      var f := formats[i];
      assert formats[..i + 1][..i] == formats[..i];
      if CarriesVideo(f) {
        videoFormats := videoFormats + [Derive(f)];
      }
      i := i + 1;
    }
    assert formats[..|formats|] == formats;
    uniqueFormats := UniqueFormats(videoFormats);
  }

  /** The de-duplication loop: a set of seen keys and an output list. */
  method UniqueFormats(videoFormats: seq<Entry>) returns (uniqueFormats: seq<Entry>)
    ensures uniqueFormats == Dedup(videoFormats)
  {
    var seen: set<Key> := {};
    uniqueFormats := [];
    var i := 0;
    while i < |videoFormats|
      invariant 0 <= i <= |videoFormats|
      invariant uniqueFormats == Dedup(videoFormats[..i])
      invariant seen == KeysOf(uniqueFormats)
    {
      var f := videoFormats[i];
      var key := KeyOf(f);
      assert videoFormats[..i + 1][..i] == videoFormats[..i];
      if key !in seen {
        KeysOfAppend(uniqueFormats, [f]);
        seen := seen + {key};
        uniqueFormats := uniqueFormats + [f];
      }
      i := i + 1;
    }
    assert videoFormats[..|videoFormats|] == videoFormats;
  }
}
