/** Topic names and subscription filters: slash-separated segments, their validity, and two ways to match them. */
module Topic {
  const MAX_LEN: nat := 256
  const MAX_SEGMENTS: nat := 16

  predicate SegCharOk(c: char) {
    || 'a' <= c <= 'z' || 'A' <= c <= 'Z' || '0' <= c <= '9'
    || c == '_' || c == '-'
  }

  // ----- Segments -----

  /** End of the segment that starts at or contains position `i`: the next slash, or the end. */
  function SegEnd(s: string, i: nat): (j: nat)
    requires i <= |s|
    ensures i <= j <= |s| && (j < |s| ==> s[j] == '/') && forall k :: i <= k < j ==> s[k] != '/'
    decreases |s| - i
  {
    if i == |s| || s[i] == '/' then i else SegEnd(s, i + 1)
  }

  function SegmentsFrom(s: string, i: nat): (r: seq<string>)
    requires i <= |s|
    ensures |r| > 0
    decreases |s| - i
  {
    var j := SegEnd(s, i);
    if j == |s| then [s[i..j]] else [s[i..j]] + SegmentsFrom(s, j + 1)
  }

  function Segments(s: string): seq<string> {
    SegmentsFrom(s, 0)
  }

  /** Segments still to come for a cursor that steps over slashes and stops at the end. */
  function Rest(s: string, i: nat): seq<string>
    requires i <= |s|
  {
    if i == |s| then [] else SegmentsFrom(s, i)
  }

  lemma {:induction false} SegEndFrom(s: string, i: nat, j: nat)
    requires i <= j <= |s| && (j < |s| ==> s[j] == '/') && forall k :: i <= k < j ==> s[k] != '/'
    ensures SegEnd(s, i) == j
  {
  }

  // ----- Validity, segment by segment -----

  predicate PlainSegment(seg: string) {
    seg != "" && forall k :: 0 <= k < |seg| ==> SegCharOk(seg[k])
  }

  predicate FilterSegment(seg: string) {
    seg == "+" || seg == "#" || PlainSegment(seg)
  }

  predicate AllPlain(segs: seq<string>) {
    forall i :: 0 <= i < |segs| ==> PlainSegment(segs[i])
  }

  /** Wildcards stand alone, and '#' comes last. */
  predicate FilterShape(segs: seq<string>) {
    segs == [] ||
    (FilterSegment(segs[0]) && (segs[0] == "#" ==> |segs| == 1) && FilterShape(segs[1..]))
  }

  predicate SizeOk(s: string) {
    0 < |s| <= MAX_LEN && |Segments(s)| <= MAX_SEGMENTS
  }

  predicate ValidPublish(s: string) {
    SizeOk(s) && AllPlain(Segments(s))
  }

  predicate ValidFilter(s: string) {
    SizeOk(s) && FilterShape(Segments(s))
  }

  // ----- The loops of the validators -----

  /** Slashes from position `i` on. */
  function Slashes(s: string, i: nat): nat
    requires i <= |s|
    decreases |s| - i
  {
    if i == |s| then 0 else (if s[i] == '/' then 1 else 0) + Slashes(s, i + 1)
  }

  /** There is one segment more than there are slashes. */
  lemma {:induction false} CountSegments(s: string, i: nat)
    requires i <= |s|
    ensures |SegmentsFrom(s, i)| == 1 + Slashes(s, i)
    decreases |s| - i
  {
    if i >= |s| {
    } else {
      CountSegments(s, i + 1);
    }
  }

  /** Empty first or last segments are exactly leading or trailing slashes. */
  lemma {:induction false} LastSegmentEmpty(s: string, i: nat)
    requires i <= |s|
    ensures var segs := SegmentsFrom(s, i);
            segs[|segs| - 1] == "" <==> i == |s| || s[|s| - 1] == '/'
    decreases |s| - i
  {
    var j := SegEnd(s, i);
    if j >= |s| {
    } else {
      LastSegmentEmpty(s, j + 1);
    }
  }

  method CommonStructureOk(s: string) returns (ok: bool)
    ensures ok <==> SizeOk(s) && s[0] != '/' && s[|s| - 1] != '/'
  {
    if |s| == 0 || |s| > MAX_LEN {
      return false;
    }
    if s[0] == '/' || s[|s| - 1] == '/' {
      return false;
    }
    var segs := 1;
    for i := 0 to |s|
      invariant segs + Slashes(s, i) == 1 + Slashes(s, 0)
    {
      if s[i] == '/' {
        segs := segs + 1;
      }
    }
    CountSegments(s, 0);
    return segs <= MAX_SEGMENTS;
  }

  /** Whether the rest of a topic is plain, for a reader that is `segLen` characters into a segment. */
  predicate PlainFrom(s: string, i: nat, segLen: nat)
    requires i <= |s|
    decreases |s| - i
  {
    if i == |s| then segLen > 0
    else if s[i] == '/' then segLen > 0 && PlainFrom(s, i + 1, 0)
    else SegCharOk(s[i]) && PlainFrom(s, i + 1, segLen + 1)
  }

  lemma {:induction false} PlainFromSegments(s: string, i: nat, segLen: nat)
    requires i <= |s|
    ensures PlainFrom(s, i, segLen) <==>
            var segs := SegmentsFrom(s, i);
            && (segLen > 0 || segs[0] != "")
            && (forall k :: 0 <= k < |segs[0]| ==> SegCharOk(segs[0][k]))
            && AllPlain(segs[1..])
    decreases |s| - i
  {
    var segs := SegmentsFrom(s, i);
    if i >= |s| {
    } else {
      if s[i] == '/' {
        PlainFromSegments(s, i + 1, 0);
        var rest := SegmentsFrom(s, i + 1);
        assert segs[1..] == rest && rest == [rest[0]] + rest[1..];
        assert AllPlain(rest) <==> PlainSegment(rest[0]) && AllPlain(rest[1..]);
      } else {
        PlainFromSegments(s, i + 1, segLen + 1);
        var rest := SegmentsFrom(s, i + 1);
        assert segs[0] == [s[i]] + rest[0] && segs[1..] == rest[1..];
      }
    }
  }

  method IsValidPublish(s: string) returns (ok: bool)
    ensures ok <==> ValidPublish(s)
  {
    var structure := CommonStructureOk(s);
    PlainFromSegments(s, 0, 0);
    LastSegmentEmpty(s, 0);
    if !structure {
      return false;
    }
    var segLen := 0;
    for i := 0 to |s|
      invariant PlainFrom(s, i, segLen) == PlainFrom(s, 0, 0)
    {
      if s[i] == '/' {
        if segLen == 0 {
          return false;
        }
        segLen := 0;
        continue;
      }
      if !SegCharOk(s[i]) {
        return false;
      }
      segLen := segLen + 1;
    }
    return segLen > 0;
  }

  /** End of the segment at `i`, found by scanning. */
  method FindSegEnd(s: string, i: nat) returns (j: nat)
    requires i <= |s|
    ensures j == SegEnd(s, i)
  {
    j := i;
    while j < |s| && s[j] != '/'
      invariant i <= j <= |s|
      invariant forall k :: i <= k < j ==> s[k] != '/'
    {
      j := j + 1;
    }
    SegEndFrom(s, i, j);
  }

  /** Where the cursor goes after the segment at `i`. */
  function NextSeg(s: string, i: nat): (n: nat)
    requires i < |s|
    ensures i < n <= |s|
  {
    var j := SegEnd(s, i);
    if j < |s| then j + 1 else j
  }

  /** Past a segment lie the remaining segments; a trailing slash is the one thing the cursor misses. */
  lemma {:induction false} RestStep(s: string, i: nat)
    requires i < |s| && s[|s| - 1] != '/'
    ensures Rest(s, i) == [s[i..SegEnd(s, i)]] + Rest(s, NextSeg(s, i))
  {
  }

  lemma {:induction false} FilterShapeStep(seg: string, rest: seq<string>)
    ensures FilterShape([seg] + rest) <==> FilterSegment(seg) && (seg == "#" ==> rest == []) && FilterShape(rest)
  {
    assert ([seg] + rest)[1..] == rest;
  }

  lemma {:induction false} FilterShapeNonempty(segs: seq<string>, i: nat)
    requires FilterShape(segs) && i < |segs|
    ensures segs[i] != ""
  {
    if i == 0 {
    } else {
      FilterShapeNonempty(segs[1..], i - 1);
    }
  }

  /** One segment of a filter: '+', a final '#', or plain characters. */
  method CheckFilterSegment(s: string, i: nat, j: nat) returns (ok: bool)
    requires i <= j <= |s|
    ensures ok <==> FilterSegment(s[i..j]) && (s[i..j] == "#" ==> j == |s|)
  {
    ghost var seg := s[i..j];
    if j - i == 0 {
      return false;
    }
    if j - i == 1 && s[i] == '+' {
      assert seg == "+";
      return true;
    }
    if j - i == 1 && s[i] == '#' {
      assert seg == "#";
      return j == |s|;
    }
    assert seg[0] == s[i];
    for k := i to j
      invariant forall n :: 0 <= n < k - i ==> SegCharOk(seg[n])
    {
      assert s[k] == seg[k - i];
      if !SegCharOk(s[k]) {
        return false;
      }
    }
    return true;
  }

  /** Whether the rest of a filter is well shaped, for a cursor at `i`. */
  predicate ShapeFrom(s: string, i: nat)
    requires i <= |s|
    decreases |s| - i
  {
    i == |s| ||
    var j := SegEnd(s, i);
    && FilterSegment(s[i..j]) && (s[i..j] == "#" ==> j == |s|)
    && ShapeFrom(s, NextSeg(s, i))
  }

  lemma {:induction false} ShapeFromSegments(s: string, i: nat)
    requires i <= |s| && (s != "" ==> s[|s| - 1] != '/')
    ensures ShapeFrom(s, i) <==> FilterShape(Rest(s, i))
    decreases |s| - i
  {
    if i >= |s| {
    } else {
      var next := NextSeg(s, i);
      ShapeFromSegments(s, next);
      RestStep(s, i);
      FilterShapeStep(s[i..SegEnd(s, i)], Rest(s, next));
    }
  }

  method IsValidFilter(s: string) returns (ok: bool)
    ensures ok <==> ValidFilter(s)
  {
    var structure := CommonStructureOk(s);
    if !structure {
      BadStructureIsInvalid(s);
      return false;
    }
    ShapeFromSegments(s, 0);
    var i: nat := 0;
    while i < |s|
      invariant i <= |s|
      invariant ShapeFrom(s, i) <==> ShapeFrom(s, 0)
    {
      var j := FindSegEnd(s, i);
      var segOk := CheckFilterSegment(s, i, j);
      if !segOk {
        return false;
      }
      i := if j < |s| then j + 1 else j;
    }
    return true;
  }

  lemma BadStructureIsInvalid(s: string)
    requires !(SizeOk(s) && s[0] != '/' && s[|s| - 1] != '/')
    ensures !ValidFilter(s)
  {
    if ValidFilter(s) {
      var segs := Segments(s);
      LastSegmentEmpty(s, 0);
      FilterShapeNonempty(segs, 0);
      FilterShapeNonempty(segs, |segs| - 1);
    }
  }

  // ----- Matching, segment by segment -----

  /** '+' matches one segment, '#' any number of them, anything else itself. */
  predicate Matches(filter: seq<string>, topic: seq<string>) {
    if filter == [] then topic == []
    else if filter[0] == "#" then true
    else topic != [] && (filter[0] == "+" || filter[0] == topic[0]) && Matches(filter[1..], topic[1..])
  }

  /** The scanning matcher stops as soon as the topic is used up, even before a trailing '#'. */
  predicate Scans(filter: seq<string>, topic: seq<string>) {
    if filter == [] || topic == [] then filter == topic
    else if filter[0] == "#" then true
    else (filter[0] == "+" || filter[0] == topic[0]) && Scans(filter[1..], topic[1..])
  }

  /** The filter is P/# and P alone already matches the whole topic. */
  predicate ParentOnly(filter: seq<string>, topic: seq<string>) {
    filter != [] && filter[|filter| - 1] == "#" && Matches(filter[..|filter| - 1], topic)
  }

  /** The two matchers differ on exactly one family of pairs, and there only the scanner says no. */
  lemma {:induction false} ScanDiffersExactly(filter: seq<string>, topic: seq<string>)
    requires FilterShape(filter)
    ensures Scans(filter, topic) <==> Matches(filter, topic) && !ParentOnly(filter, topic)
  {
    if filter == [] {
    } else {
      FilterShapeStep(filter[0], filter[1..]);
      assert filter == [filter[0]] + filter[1..];
      if filter[0] == "#" {
        assert filter[..0] == [];
      } else if topic != [] {
        ScanDiffersExactly(filter[1..], topic[1..]);
        if filter[1..] != [] {
          var init := filter[..|filter| - 1];
          assert init[0] == filter[0] && init[1..] == filter[1..][..|filter[1..]| - 1];
        }
      } else if |filter| > 1 {
        var init := filter[..|filter| - 1];
        assert init[0] == filter[0];
      }
    }
  }

  /** Such pairs exist among valid names: "a/#" matches "a", and the scanner does not find it. */
  lemma {:induction false} ParentIsMissed()
    ensures var filter, topic := "a/#", "a";
            && ValidFilter(filter) && ValidPublish(topic)
            && ParentOnly(Segments(filter), Segments(topic))
            && Matches(Segments(filter), Segments(topic)) && !Scans(Segments(filter), Segments(topic))
  {
    var filter, topic := "a/#", "a";
    SegEndFrom(filter, 0, 1);
    SegEndFrom(filter, 2, 3);
    SegEndFrom(topic, 0, 1);
    assert filter[0..1] == "a" && filter[2..3] == "#" && topic[0..1] == "a";
    assert SegmentsFrom(filter, 2) == ["#"];
    var fs, ts := Segments(filter), Segments(topic);
    assert fs == ["a", "#"] && ts == ["a"];
    assert PlainSegment("a");
    assert fs[1..] == ["#"] && fs[1..][1..] == [] && ts[1..] == [];
    assert FilterShape(fs[1..]);
    var parent := fs[..|fs| - 1];
    assert parent == ["a"] && parent[1..] == [];
    assert Matches(parent[1..], ts[1..]);
  }

  /** The next segment of each name decides, or leaves the decision to what follows. */
  lemma {:induction false} ScansStep(filter: seq<string>, fseg: string, frest: seq<string>,
                                     topic: seq<string>, tseg: string, trest: seq<string>)
    requires filter == [fseg] + frest && topic == [tseg] + trest
    ensures Scans(filter, topic) <==> fseg == "#" || ((fseg == "+" || fseg == tseg) && Scans(frest, trest))
  {
    assert filter[1..] == frest && topic[1..] == trest;
  }

  /** Neither a valid topic nor a valid filter ends in a slash. */
  lemma ValidEndsInSegment(s: string)
    requires ValidPublish(s) || ValidFilter(s)
    ensures s[|s| - 1] != '/'
  {
    LastSegmentEmpty(s, 0);
    if ValidFilter(s) {
      FilterShapeNonempty(Segments(s), |Segments(s)| - 1);
    }
  }

  /** The scanner's verdict from a pair of cursors on. */
  predicate ScansFrom(filter: string, fi: nat, topic: string, ti: nat)
    requires fi <= |filter| && ti <= |topic|
    decreases |filter| - fi
  {
    if fi == |filter| || ti == |topic| then fi == |filter| && ti == |topic|
    else
      var fseg, tseg := filter[fi..SegEnd(filter, fi)], topic[ti..SegEnd(topic, ti)];
      fseg == "#" ||
      ((fseg == "+" || fseg == tseg) && ScansFrom(filter, NextSeg(filter, fi), topic, NextSeg(topic, ti)))
  }

  lemma {:induction false} ScansFromSegments(filter: string, fi: nat, topic: string, ti: nat)
    requires fi <= |filter| && ti <= |topic|
    requires (filter != "" ==> filter[|filter| - 1] != '/') && (topic != "" ==> topic[|topic| - 1] != '/')
    ensures ScansFrom(filter, fi, topic, ti) <==> Scans(Rest(filter, fi), Rest(topic, ti))
    decreases |filter| - fi
  {
    if fi == |filter| || ti == |topic| {
    } else {
      var nextF, nextT := NextSeg(filter, fi), NextSeg(topic, ti);
      ScansFromSegments(filter, nextF, topic, nextT);
      RestStep(filter, fi);
      RestStep(topic, ti);
      ScansStep(Rest(filter, fi), filter[fi..SegEnd(filter, fi)], Rest(filter, nextF),
                Rest(topic, ti), topic[ti..SegEnd(topic, ti)], Rest(topic, nextT));
    }
  }

  /** The segment at a cursor, and where the cursor goes next. */
  method TakeSegment(s: string, i: nat) returns (seg: string, next: nat)
    requires i < |s|
    ensures seg == s[i..SegEnd(s, i)] && next == NextSeg(s, i)
  {
    var j := FindSegEnd(s, i);
    seg := s[i..j];
    next := if j < |s| then j + 1 else j;
  }

  /** The scanner on strings: a cursor over each name, one segment of each at a time. */
  method Scan(topic: string, filter: string) returns (ok: bool)
    ensures ok <==> ScansFrom(filter, 0, topic, 0)
  {
    ghost var verdict := ScansFrom(filter, 0, topic, 0);
    var ti: nat, fi: nat := 0, 0;
    while ti < |topic| && fi < |filter|
      invariant ti <= |topic| && fi <= |filter|
      invariant ScansFrom(filter, fi, topic, ti) <==> verdict
      decreases |topic| - ti
    {
      var fseg, nextF := TakeSegment(filter, fi);
      if fseg == "#" {
        return true;
      }
      var tseg, nextT := TakeSegment(topic, ti);
      if fseg != "+" && fseg != tseg {
        return false;
      }
      ti, fi := nextT, nextF;
    }
    return ti == |topic| && fi == |filter|;
  }

  method TopicMatches(topic: string, filter: string) returns (ok: bool)
    ensures ok <==> ValidPublish(topic) && ValidFilter(filter) && Scans(Segments(filter), Segments(topic))
  {
    var topicOk := IsValidPublish(topic);
    if !topicOk {
      return false;
    }
    var filterOk := IsValidFilter(filter);
    if !filterOk {
      return false;
    }
    ValidEndsInSegment(topic);
    ValidEndsInSegment(filter);
    ScansFromSegments(filter, 0, topic, 0);
    ok := Scan(topic, filter);
  }
}
