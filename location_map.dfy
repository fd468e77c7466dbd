/** The location step of the `LocationMap` modeler plug-in: the raw SNMP
    sysLocation of a device becomes a Zenoss location path ("/Site/Room/Rack")
    and a rack-slot descriptor decoded from a "-suffix" on the last segment.

    Zenoss's `prepId`, which rewrites one segment into legal identifier
    characters, is not part of this model: every member takes it as the
    parameter `prepId`. */
module LocationMap {
  import opened Text
  import opened RackSlot

  /** The plug-in keeps '/' out of `prepId` so that it only ever sees one
      segment; `prepId` itself treats '/' as illegal and never returns one. */
  ghost predicate NoSlash(prepId: string -> string)
  {
    forall s :: '/' !in prepId(s)
  }

  /** A sanitiser that leaves its own output, and every prefix of it, alone,
      as a character-by-character substitution does. */
  ghost predicate PrefixStable(prepId: string -> string)
  {
    forall s, k :: 0 <= k <= |prepId(s)| ==> prepId(prepId(s)[..k]) == prepId(s)[..k]
  }

  /** `map(self.prepId, parts)`. */
  function Sanitize(parts: seq<string>, prepId: string -> string): (segs: seq<string>)
    ensures |segs| == |parts|
    ensures forall i :: 0 <= i < |parts| ==> segs[i] == prepId(parts[i])
  {
    seq(|parts|, i requires 0 <= i < |parts| => prepId(parts[i]))
  }

  /** The rack suffix of the last segment: the segment is cut at its FIRST
      '-' (`str.find`), the stem stays in the path and the rest is the suffix. */
  function Cut(segment: string): (r: (string, string))
    ensures '-' !in r.0
    ensures '-' in segment ==> segment == r.0 + "-" + r.1
    ensures '-' !in segment ==> r == (segment, "")
  {
    var separator := Find(segment, '-');
    if separator != -1 then (segment[..separator], segment[separator + 1..]) else (segment, "")
  }

  /** The last segment of a non-empty location, sanitised. */
  function LastSegment(location: string, prepId: string -> string): string
    requires location != ""
  {
    var parts := Split(location, '/');
    prepId(parts[|parts| - 1])
  }

  /** The segments of the returned path after its leading '/': every segment
      sanitised, the last one cut at its rack suffix. */
  function PathSegments(location: string, prepId: string -> string): seq<string>
    requires location != ""
  {
    var parts := Split(location, '/');
    Sanitize(parts[..|parts| - 1], prepId) + [Cut(LastSegment(location, prepId)).0]
  }

  /** The location and rack slot the plug-in hands back for a raw sysLocation.
      An empty location is passed through with no rack slot; any other one is
      split on '/', each segment sanitised, a leading "" segment prepended (so
      the path starts with '/' even when the input already did), the rack suffix
      cut from the last segment and decoded, and the segments joined again. */
  function Normalize(location: string, prepId: string -> string): (r: (string, string))
    ensures location == "" <==> r == ("", "")
    ensures location != "" ==> |r.0| > 0 && r.0[0] == '/'
    ensures r.1 == "" || Take(r.1, 5) == "rh=1," || r.1 in SideDescriptors
  {
    if location == "" then ("", "")
    else ("/" + Join(PathSegments(location, prepId), '/'), DecodeRackSlot(Cut(LastSegment(location, prepId)).1))
  }

  /** `LocationMap.process` from the raw value to the returned pair, step by
      step as the plug-in rebinds `loclist`, `extra`, `location` and `rackSlot`. */
  method Process(location: string, prepId: string -> string) returns (path: string, rackSlot: string)
    ensures (path, rackSlot) == Normalize(location, prepId)
  {
    path, rackSlot := location, "";
    if location != "" {
      ghost var parts := Split(location, '/');
      var loclist := Sanitize(Split(location, '/'), prepId);
      ghost var kept := Sanitize(parts[..|parts| - 1], prepId);
      assert loclist == kept + [LastSegment(location, prepId)];
      // The guard in front of the prepend compares a list slice with the
      // string "/", which never holds in Python 2, so the prepend always runs.
      loclist := [""] + loclist;
      var last := |loclist| - 1;
      assert loclist[last] == LastSegment(location, prepId);
      ghost var cut := Cut(loclist[last]);
      var separator := Find(loclist[last], '-');
      var extra: string;
      if separator != -1 {
        // The suffix is read before the segment is cut; LocationMap.py reads
        // it after the cut, from the stem (see CutAsWritten).
        extra := loclist[last][separator + 1..];
        loclist := loclist[last := loclist[last][..separator]];
        assert extra == cut.1;
      } else {
        extra := "";
      }
      assert PathSegments(location, prepId) == kept + [cut.0];
      assert loclist == [""] + PathSegments(location, prepId);
      rackSlot := DecodeRackSlot(extra);
      JoinBehindEmpty(PathSegments(location, prepId), '/');
      path := Join(loclist, '/');
    }
  }

  // ---------------------------------------------------------------------------
  // The path.

  /** The returned path is the '/'-join of its segments behind an empty one,
      and, as no segment holds a '/', splitting it gives those segments back. */
  lemma {:induction false} PathSplit(location: string, prepId: string -> string)
    requires location != "" && NoSlash(prepId)
    ensures Normalize(location, prepId).0 == Join([""] + PathSegments(location, prepId), '/')
    ensures Split(Normalize(location, prepId).0, '/') == [""] + PathSegments(location, prepId)
  {
    var inner := PathSegments(location, prepId);
    SegmentsSlashFree(location, prepId);
    JoinBehindEmpty(inner, '/');
    SplitJoin([""] + inner, '/');
  }

  lemma SegmentsSlashFree(location: string, prepId: string -> string)
    requires location != "" && NoSlash(prepId)
    ensures forall t :: t in PathSegments(location, prepId) ==> '/' !in t
  {
  }

  /** The segments of the returned path: an empty first segment (the leading
      '/'), then the sanitised input segments in order, the last one cut at its
      '-'. There is one more segment than the input has, two more than it has
      '/' characters. */
  lemma {:induction false} PathLayout(location: string, prepId: string -> string)
    requires location != "" && NoSlash(prepId)
    ensures var parts, out := Split(location, '/'), Split(Normalize(location, prepId).0, '/');
      && |out| == |parts| + 1 == Occurrences(location, '/') + 2
      && out[0] == ""
      && (forall i :: 0 <= i < |parts| - 1 ==> out[i + 1] == prepId(parts[i]))
      && out[|parts|] == Cut(prepId(parts[|parts| - 1])).0
  {
    PathSplit(location, prepId);
    SplitCount(location, '/');
  }

  /** An input that already starts with '/' keeps its own empty first segment
      behind the prepended one: the path starts with "//". */
  lemma {:induction false} LeadingSlashDoubled(location: string, prepId: string -> string)
    requires |location| > 0 && location[0] == '/' && prepId("") == ""
    ensures Take(Normalize(location, prepId).0, 2) == "//"
  {
  }

  /** Feeding a returned path back in does not give it back: the path gains
      another leading '/' (and the rack slot is empty, the suffix being gone),
      even for a sanitiser that leaves its own output alone. */
  lemma {:induction false} RenormalizeAddsSlash(location: string, prepId: string -> string)
    requires location != "" && NoSlash(prepId) && PrefixStable(prepId)
    ensures var path := Normalize(location, prepId).0;
      Normalize(path, prepId) == ("/" + path, "")
  {
    var path := Normalize(location, prepId).0;
    var inner := PathSegments(location, prepId);
    var again := [""] + inner;
    PathSplit(location, prepId);
    assert Split(path, '/') == again;
    SegmentsStable(location, prepId);
    var stem := inner[|inner| - 1];
    assert LastSegment(path, prepId) == stem;
    assert Cut(stem) == (stem, "");
    SanitizeFixed(again[..|again| - 1], prepId);
    assert PathSegments(path, prepId) == again;
    JoinBehindEmpty(inner, '/');
    assert DecodeRackSlot("") == "";
  }

  lemma SanitizeFixed(xs: seq<string>, prepId: string -> string)
    requires forall x :: x in xs ==> prepId(x) == x
    ensures Sanitize(xs, prepId) == xs
  {
  }

  /** A prefix-stable sanitiser leaves every segment of a returned path alone,
      the empty one in front included. */
  lemma SegmentsStable(location: string, prepId: string -> string)
    requires location != "" && PrefixStable(prepId)
    ensures prepId("") == ""
    ensures forall t :: t in PathSegments(location, prepId) ==> prepId(t) == t
  {
    assert prepId(prepId("")[..0]) == prepId("")[..0];
    var parts := Split(location, '/');
    var n := |parts|;
    var last := prepId(parts[n - 1]);
    var stem := Cut(last).0;
    assert stem == last[..|stem|] by {
      if '-' in last {
        assert last == stem + "-" + Cut(last).1;
      }
    }
    assert prepId(last[..|stem|]) == last[..|stem|];
    forall i | 0 <= i < n - 1
      ensures prepId(prepId(parts[i])) == prepId(parts[i])
    {
      assert prepId(prepId(parts[i])[..|prepId(parts[i])|]) == prepId(parts[i])[..|prepId(parts[i])|];
      assert prepId(parts[i])[..|prepId(parts[i])|] == prepId(parts[i]);
    }
  }

  // ---------------------------------------------------------------------------
  // The rack slot.

  /** A last segment that sanitises to "stem-extra", with no '-' in the stem,
      ends the path in "stem" and yields the rack slot decoded from "extra";
      only the last segment is inspected, the earlier ones may hold '-' freely. */
  lemma {:induction false} RackSlotFromSuffix(location: string, prepId: string -> string, stem: string, extra: string)
    requires location != "" && NoSlash(prepId)
    requires var parts := Split(location, '/'); prepId(parts[|parts| - 1]) == stem + "-" + extra
    requires '-' !in stem
    ensures var out := Split(Normalize(location, prepId).0, '/');
      out[|out| - 1] == stem && Normalize(location, prepId).1 == DecodeRackSlot(extra)
  {
    PathLayout(location, prepId);
    FindAfterDelimiterFree(stem, '-', extra);
    assert (stem + "-" + extra)[..|stem|] == stem;
    assert (stem + "-" + extra)[|stem| + 1..] == extra;
  }

  /** A last segment with no '-' after sanitising stays whole, and there is
      no rack slot. */
  lemma {:induction false} NoSuffixNoRackSlot(location: string, prepId: string -> string)
    requires location != "" && NoSlash(prepId)
    requires var parts := Split(location, '/'); '-' !in prepId(parts[|parts| - 1])
    ensures var parts, out := Split(location, '/'), Split(Normalize(location, prepId).0, '/');
      out[|out| - 1] == prepId(parts[|parts| - 1]) && Normalize(location, prepId).1 == ""
  {
    var parts := Split(location, '/');
    PathLayout(location, prepId);
    assert Cut(prepId(parts[|parts| - 1])).1 == "";
    assert DecodeRackSlot("") == "";
  }

  /** A position written after the last '-' comes back as its descriptor. */
  lemma {:induction false} MountRoundTrip(location: string, prepId: string -> string, stem: string, m: Mount)
    requires location != "" && NoSlash(prepId) && WellFormed(m)
    requires var parts := Split(location, '/'); prepId(parts[|parts| - 1]) == stem + "-" + Suffix(m)
    requires '-' !in stem
    ensures Normalize(location, prepId).1 == Descriptor(m)
  {
    RackSlotFromSuffix(location, prepId, stem, Suffix(m));
    DecodeSuffix(m);
  }

  /** A sanitiser for inputs that are legal already. */
  function Unchanged(segment: string): string
  {
    segment
  }

  /** The plug-in's own example, "Albuquerque/DC1/Rack01-25", with a sanitiser
      that changes nothing, and its siblings for the other suffix forms. */
  lemma DocumentedExamples()
    ensures Normalize("Albuquerque/DC1/Rack01-25", Unchanged) == ("/Albuquerque/DC1/Rack01", "rh=1,ru=25")
    ensures Normalize("Albuquerque/DC1/Rack01-r25", Unchanged) == ("/Albuquerque/DC1/Rack01", "rh=1,split=rear,ru=25")
    ensures Normalize("Albuquerque/DC1/Rack01-rl", Unchanged) == ("/Albuquerque/DC1/Rack01", "split=left/rear")
    ensures Normalize("Albuquerque/DC1/Rack01-l", Unchanged) == ("/Albuquerque/DC1/Rack01", "split=left")
  {
    ExampleSlots();
    ExampleLocations();
    ExampleRack("25");
    ExampleRack("r25");
    ExampleRack("rl");
    ExampleRack("l");
  }

  lemma ExampleSlots()
    ensures DecodeRackSlot("25") == "rh=1,ru=25"
    ensures DecodeRackSlot("r25") == "rh=1,split=rear,ru=25"
    ensures DecodeRackSlot("rl") == "split=left/rear"
    ensures DecodeRackSlot("l") == "split=left"
  {
    FrontUnit("25");
    RearUnit("r25");
    RearSide("rl");
    SingleSide("l");
  }

  // String-literal steps only, split out to keep the example proofs small.
  lemma ExampleLocations()
    ensures "Albuquerque/DC1/Rack01-" + "25" == "Albuquerque/DC1/Rack01-25"
    ensures "Albuquerque/DC1/Rack01-" + "r25" == "Albuquerque/DC1/Rack01-r25"
    ensures "Albuquerque/DC1/Rack01-" + "rl" == "Albuquerque/DC1/Rack01-rl"
    ensures "Albuquerque/DC1/Rack01-" + "l" == "Albuquerque/DC1/Rack01-l"
  {
  }

  lemma ExampleRack(extra: string)
    requires '-' !in extra && '/' !in extra
    ensures Normalize("Albuquerque/DC1/Rack01-" + extra, Unchanged) == ("/Albuquerque/DC1/Rack01", DecodeRackSlot(extra))
  {
    var location := "Albuquerque/DC1/Rack01-" + extra;
    var segs := ExampleSplit(extra);
    assert LastSegment(location, Unchanged) == "Rack01-" + extra;
    ExampleCut(extra);
    SanitizeUnchanged(segs[..2]);
    var path := ["Albuquerque", "DC1", "Rack01"];
    assert segs[..2] + ["Rack01"] == path;
    assert PathSegments(location, Unchanged) == path;
    JoinThree("Albuquerque", "DC1", "Rack01");
    ExamplePath();
  }

  lemma ExampleSplit(extra: string) returns (segs: seq<string>)
    requires '/' !in extra
    ensures segs == ["Albuquerque", "DC1", "Rack01-" + extra]
    ensures Split("Albuquerque/DC1/Rack01-" + extra, '/') == segs
  {
    segs := ["Albuquerque", "DC1", "Rack01-" + extra];
    JoinThree("Albuquerque", "DC1", "Rack01-" + extra);
    assert "Albuquerque" + "/" + "DC1" + "/" + ("Rack01-" + extra) == "Albuquerque/DC1/Rack01-" + extra;
    SplitJoin(segs, '/');
  }

  lemma ExampleCut(extra: string)
    requires '-' !in extra
    ensures Cut(Unchanged("Rack01-" + extra)) == ("Rack01", extra)
  {
    var last := "Rack01-" + extra;
    FindAfterDelimiterFree("Rack01", '-', extra);
    assert last[..6] == "Rack01";
    assert last[7..] == extra;
  }

  lemma SanitizeUnchanged(parts: seq<string>)
    ensures Sanitize(parts, Unchanged) == parts
  {
    assert forall i :: 0 <= i < |parts| ==> Sanitize(parts, Unchanged)[i] == parts[i];
  }

  // String-literal step only, split out to keep the example proofs small.
  lemma ExamplePath()
    ensures "/" + ("Albuquerque" + "/" + "DC1" + "/" + "Rack01") == "/Albuquerque/DC1/Rack01"
  {
  }

  lemma JoinThree(a: string, b: string, c: string)
    ensures Join([a, b, c], '/') == a + "/" + b + "/" + c
  {
    assert [a, b, c][1..] == [b, c];
    assert [b, c][1..] == [c];
    assert Join([c], '/') == c;
    assert Join([b, c], '/') == b + "/" + c;
  }

  /** A rear unit position written after the '-' of a one-segment location. */
  lemma RearDigitExample()
    ensures Normalize("X-r9", Unchanged) == ("/X", "rh=1,split=rear,ru=9")
  {
    var location := "X-r9";
    assert Find(location, '/') == -1;
    var parts := Split(location, '/');
    assert parts == [location];
    assert Unchanged(parts[0]) == location;
    FindAfterDelimiterFree("X", '-', "r9");
    assert location == "X" + "-" + "r9";
    assert location[..1] == "X" && location[2..] == "r9";
    assert Cut(location) == ("X", "r9");
    assert Sanitize(parts[..0], Unchanged) == [];
    assert Join(["X"], '/') == "X";
    RearUnit("r9");
    assert DecodeRackSlot("r9") == "rh=1,split=rear,ru=9";
    assert Sanitize(parts[..0], Unchanged) + [Cut(Unchanged(parts[0])).0] == ["X"];
    assert "/" + "X" == "/X";
    assert Normalize(location, Unchanged).1 == "rh=1,split=rear,ru=9";
    assert Normalize(location, Unchanged).0 == "/X";
  }

  // ---------------------------------------------------------------------------
  // The plug-in as written.

  datatype Outcome = Returned(location: string, rackSlot: string) | TypeError

  /** Lines 41-51 as written. The guard in front of the prepend compares a
      list slice with a string, which Python 2 never finds equal, so the
      prepend runs for every non-empty location, and it adds the string "" to
      a list, which raises TypeError before anything is decoded. Dafny has no
      such type error: the TypeError outcome is written into this definition
      from Python 2's rules, not derived from a model of `+`. */
  function ProcessAsWritten(location: string, prepId: string -> string): (o: Outcome)
    ensures o.Returned? ==> o == Returned("", "")
  {
    if location == "" then Returned(location, "") else TypeError
  }

  /** Every non-empty location raises, the plug-in's own example included;
      `Normalize` prepends a list element instead and returns a path. */
  lemma AsWrittenRaises(location: string, prepId: string -> string)
    requires location != ""
    ensures ProcessAsWritten(location, prepId) == TypeError
    ensures Normalize(location, prepId).0[0] == '/'
  {
  }

  // ---------------------------------------------------------------------------
  // The prepend guard as its comments describe it.

  /** The step with the guard of line 49 doing what lines 32-33 and 48 say it
      is for: the empty segment is put in front only when the first sanitised
      segment is not empty already, that is, when the location does not start
      with '/'. Only the path differs from `Normalize`, and only then. */
  function NormalizeGuarded(location: string, prepId: string -> string): (r: (string, string))
    ensures r.1 == Normalize(location, prepId).1
    ensures location != "" && prepId(Split(location, '/')[0]) != "" ==> r == Normalize(location, prepId)
  {
    if location == "" then ("", "")
    else
      var segs := PathSegments(location, prepId);
      var path := if prepId(Split(location, '/')[0]) == "" then Join(segs, '/') else "/" + Join(segs, '/');
      (path, DecodeRackSlot(Cut(LastSegment(location, prepId)).1))
  }

  /** With the guard in place, a location that already starts with '/' keeps
      a single leading '/': its path is `Normalize`'s without the doubled one. */
  lemma {:induction false} GuardedKeepsOneSlash(location: string, prepId: string -> string)
    requires |location| > 0 && location[0] == '/' && prepId("") == ""
    ensures NormalizeGuarded(location, prepId).0 == Normalize(location, prepId).0[1..]
    ensures Take(NormalizeGuarded(location, prepId).0, 1) == "/"
  {
    var parts := Split(location, '/');
    assert Find(location, '/') == 0;
    assert parts == [""] + Split(location[1..], '/');
    var segs := PathSegments(location, prepId);
    assert |parts| >= 2 && segs[0] == prepId(parts[0]) == "";
    assert segs == [""] + segs[1..];
    JoinBehindEmpty(segs[1..], '/');
  }

  /** With the guard in place, a returned path fed back in comes back
      unchanged with no rack slot, which is what lines 35-39 ask of the step
      so that an applied location causes no further model update. */
  lemma {:induction false} GuardedStable(location: string, prepId: string -> string)
    requires location != "" && NoSlash(prepId) && PrefixStable(prepId)
    ensures var path := NormalizeGuarded(location, prepId).0;
      NormalizeGuarded(path, prepId) == (path, "")
  {
    var parts := Split(location, '/');
    var segs := PathSegments(location, prepId);
    var path := NormalizeGuarded(location, prepId).0;
    SegmentsSlashFree(location, prepId);
    SegmentsStable(location, prepId);
    if prepId(parts[0]) == "" {
      assert path == Join(segs, '/');
      assert segs[0] == "" by {
        if |parts| == 1 {
          assert segs == [Cut(prepId(parts[0])).0];
        }
      }
      if path != "" {
        GuardedOfFixed(segs, prepId);
      }
    } else {
      var again := [""] + segs;
      JoinBehindEmpty(segs, '/');
      assert path == Join(again, '/');
      GuardedOfFixed(again, prepId);
    }
  }

  /** The join of fixed segments behind an empty one is its own guarded
      normal form. */
  lemma {:induction false} GuardedOfFixed(segs: seq<string>, prepId: string -> string)
    requires |segs| >= 1 && segs[0] == "" && Join(segs, '/') != ""
    requires forall t :: t in segs ==> '/' !in t && prepId(t) == t
    requires '-' !in segs[|segs| - 1]
    ensures NormalizeGuarded(Join(segs, '/'), prepId) == (Join(segs, '/'), "")
  {
    var path := Join(segs, '/');
    ResegmentFixed(segs, prepId);
    assert segs[0] in segs;
    assert prepId(Split(path, '/')[0]) == "";
    assert DecodeRackSlot("") == "";
  }

  /** A '/'-join of slash-free segments that a sanitiser leaves alone, the
      last one without '-', splits, sanitises and cuts back to those segments
      with no rack suffix. */
  lemma {:induction false} ResegmentFixed(segs: seq<string>, prepId: string -> string)
    requires |segs| >= 1 && Join(segs, '/') != ""
    requires forall t :: t in segs ==> '/' !in t && prepId(t) == t
    requires '-' !in segs[|segs| - 1]
    ensures Split(Join(segs, '/'), '/') == segs
    ensures PathSegments(Join(segs, '/'), prepId) == segs
    ensures Cut(LastSegment(Join(segs, '/'), prepId)).1 == ""
  {
    var path := Join(segs, '/');
    var n := |segs|;
    var last := segs[n - 1];
    var front := segs[..n - 1];
    assert front + [last] == segs;
    assert forall i :: 0 <= i < |segs| ==> '/' !in segs[i] by {
      forall i | 0 <= i < |segs| ensures '/' !in segs[i] {
        assert segs[i] in segs;
      }
    }
    SplitJoin(segs, '/');
    assert last in segs;
    assert LastSegment(path, prepId) == last;
    assert Cut(last) == (last, "");
    assert forall x :: x in front ==> x in segs;
    SanitizeFixed(front, prepId);
    assert PathSegments(path, prepId) == front + [last];
  }

  /** Lines 57-64 as written: the segment is cut first and the suffix then read
      from the cut segment, past its end, so it is always "". */
  function CutAsWritten(segment: string): (r: (string, string))
    ensures r.0 == Cut(segment).0
  {
    var separator := Find(segment, '-');
    if separator != -1 then
      var stem := segment[..separator];
      (stem, Drop(stem, separator + 1))
    else
      (segment, "")
  }

  /** The suffix read as written is empty for every segment, so the rack slot
      is always "". */
  lemma CutAsWrittenLosesSuffix(segment: string)
    ensures CutAsWritten(segment).1 == ""
    ensures DecodeRackSlot(CutAsWritten(segment).1) == ""
  {
  }

  /** "Rack01-25" loses its unit position 25 as written. */
  lemma CutAsWrittenExample()
    ensures CutAsWritten("Rack01-" + "25").1 == ""
    ensures Cut("Rack01-" + "25").1 == "25"
  {
    CutAsWrittenLosesSuffix("Rack01-" + "25");
    ExampleCut("25");
  }
}
