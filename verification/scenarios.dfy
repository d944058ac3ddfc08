/** Concrete runs of the model: a format list with an audio-only stream, a
    selector for format 137, and a download output with a blank line. */
module Scenarios {
  import opened PyValues
  import opened Formats
  import Download

  const Vp9720: RawFormat :=
    RawFormat(Val("247"), Val("webm"), Val("vp9"), Val("opus"), Val("1280x720"), Val(30), Val(52428800), Absent)
  const AudioStream: RawFormat :=
    RawFormat(Val("140"), Val("m4a"), Val("none"), Val("mp4a"), Absent, Absent, Val(3000000), Absent)
  const Avc360: RawFormat :=
    RawFormat(Val("18"), Val("mp4"), Val("avc1"), Val("mp4a"), Val("640x360"), Absent, Val(0), Val(10485760))

  /** The audio-only stream is filtered out; the 360p entry falls back to the
      approximate size because its exact size is 0. The sizes are 50 MiB and
      10 MiB. */
  lemma ThreeFormatCatalog()
    ensures var c := BuildCatalog([Vp9720, AudioStream, Avc360]);
      && |c| == 2
      && c[0].id == Some("247") && c[0].resolution == Some("1280x720") && c[0].hasAudio
      && c[0].size == Some(50 * 1024 * 1024)
      && c[1].id == Some("18") && c[1].resolution == Some("640x360") && c[1].hasAudio
      && c[1].size == Some(10 * 1024 * 1024)
  {
    var d1, d3 := Derive(Vp9720), Derive(Avc360);
    DerivedSizes();
    assert !CarriesVideo(AudioStream);
    ThreeVideoEntries(Vp9720, AudioStream, Avc360);
    assert VideoEntries([Vp9720, AudioStream, Avc360]) == [d1, d3];
    assert KeyOf(d1) != KeyOf(d3);
    DedupOfUnique([d1, d3]);
  }

  lemma DerivedSizes()
    ensures Derive(Vp9720).size == Some(50 * 1024 * 1024)
    ensures Derive(Avc360).size == Some(10 * 1024 * 1024)
  {
    assert SizeOf(Vp9720) == Some(52428800);
    assert SizeOf(Avc360) == Some(10485760);
  }

  lemma ThreeVideoEntries(f1: RawFormat, f2: RawFormat, f3: RawFormat)
    ensures VideoEntries([f1, f2, f3]) ==
      (if CarriesVideo(f1) then [Derive(f1)] else []) +
      (if CarriesVideo(f2) then [Derive(f2)] else []) +
      (if CarriesVideo(f3) then [Derive(f3)] else [])
  {
    VideoEntriesAppend([f1], [f2]);
    VideoEntriesAppend([f1, f2], [f3]);
    assert [f1] + [f2] == [f1, f2];
    assert [f1, f2] + [f3] == [f1, f2, f3];
    SingleVideoEntry(f1);
    SingleVideoEntry(f2);
    SingleVideoEntry(f3);
  }

  lemma SingleVideoEntry(f: RawFormat)
    ensures VideoEntries([f]) == if CarriesVideo(f) then [Derive(f)] else []
  {
    assert [f][..0] == [];
  }

  /** Two entries of the same resolution with audio: the first one is kept. */
  lemma DuplicateKeepsFirst()
    ensures var a := Entry(Some("22"), Some("mp4"), Some("1280x720"), Some(30), true, None);
      var b := Entry(Some("95"), Some("mp4"), Some("1280x720"), Some(30), true, Some(7));
      Dedup([a, b]) == [a]
  {
    var a := Entry(Some("22"), Some("mp4"), Some("1280x720"), Some(30), true, None);
    var b := Entry(Some("95"), Some("mp4"), Some("1280x720"), Some(30), true, Some(7));
    assert [a, b][..1] == [a];
    assert [a][..0] == [];
    assert a in [a];
    assert KeyOf(b) in KeysOf([a]);
  }

  lemma Format137Selector()
    ensures Download.Selector(Some("137")) == "137+bestaudio/best"
    ensures Download.Selector(None) == "None+bestaudio/best"
  {
  }

  /** The blank line of the tool's output is not logged. */
  lemma BlankLineSuppressed()
    ensures Download.Forwarded(["a\n", "\n", "b\n", "c"]) == ["a", "b", "c"]
  {
    FourLines("a\n", "\n", "b\n", "c");
    StripExamples();
  }

  lemma FourLines(l1: string, l2: string, l3: string, l4: string)
    ensures Download.Forwarded([l1, l2, l3, l4]) ==
      Download.Forwarded([l1]) + Download.Forwarded([l2]) +
      Download.Forwarded([l3]) + Download.Forwarded([l4])
  {
    Download.ForwardedAppend([l1], [l2]);
    Download.ForwardedAppend([l1, l2], [l3]);
    Download.ForwardedAppend([l1, l2, l3], [l4]);
    assert [l1] + [l2] == [l1, l2];
    assert [l1, l2] + [l3] == [l1, l2, l3];
    assert [l1, l2, l3] + [l4] == [l1, l2, l3, l4];
  }

  lemma SingleLine(line: string)
    ensures Download.Forwarded([line]) == if Strip(line) == [] then [] else [Strip(line)]
  {
    assert [line][..0] == [];
  }

  lemma StripExamples()
    ensures Download.Forwarded(["a\n"]) == ["a"]
    ensures Download.Forwarded(["\n"]) == []
    ensures Download.Forwarded(["b\n"]) == ["b"]
    ensures Download.Forwarded(["c"]) == ["c"]
  {
    CharThenNewline('a');
    CharThenNewline('b');
    LoneChar('c');
    SingleLine("\n");
    assert AllSpace("\n");
  }

  lemma CharThenNewline(c: char)
    requires !IsSpace(c)
    ensures Download.Forwarded([[c, '\n']]) == [[c]]
  {
    var s := [c, '\n'];
    assert SkipSpaces(s, 0) == 0;
    assert SkipSpacesBack(s, 0, 1) == 1;
    assert SkipSpacesBack(s, 0, 2) == 1;
    assert Strip(s) == [c];
    SingleLine(s);
  }

  lemma LoneChar(c: char)
    requires !IsSpace(c)
    ensures Download.Forwarded([[c]]) == [[c]]
  {
    var s := [c];
    assert SkipSpaces(s, 0) == 0;
    assert SkipSpacesBack(s, 0, 1) == 1;
    assert Strip(s) == [c];
    SingleLine(s);
  }
}
