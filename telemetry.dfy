/** Manufacturing telemetry in the serial monitor: a line is decoded only if
    it contains `{"type":"mfg"` and the pattern `(\{.*?"type":"mfg".*?\})`
    finds a match. The functions below follow Python's `re.search` for that
    pattern: the leftmost `{` that can start a match, then the shortest
    stretch to `"type":"mfg"`, then the shortest stretch to a `}`, where `.`
    matches anything but a newline. */
module Telemetry {
  import opened Base

  /** The substring test done before the regex. */
  const Guard: string := "{\"type\":\"mfg\""

  /** The literal in the middle of the pattern. */
  const Marker: string := "\"type\":\"mfg\""

  predicate NoNewline(d: string, a: int, b: int)
    requires 0 <= a && b <= |d|
  {
    forall t :: a <= t < b ==> d[t] != '\n'
  }

  /** `.*?\}` can end at `e` when started at `k`. */
  predicate CloseAt(d: string, k: nat, e: int) {
    k <= e < |d| && d[e] == '}' && NoNewline(d, k, e)
  }

  /** `.*?\}` from `k`: the first `}` not preceded by a newline. */
  function CloseFrom(d: string, k: nat): (r: Option<nat>)
    requires k <= |d|
    decreases |d| - k
    ensures r.None? <==> forall e :: !CloseAt(d, k, e)
    ensures r.Some? ==> CloseAt(d, k, r.value) && forall t :: k <= t < r.value ==> d[t] != '}'
  {
    if k == |d| then None
    else if d[k] == '}' then
      assert CloseAt(d, k, k);
      Some(k)
    else if d[k] == '\n' then None
    else
      var r := CloseFrom(d, k + 1);
      CloseStep(d, k);
      assert r.Some? ==> CloseAt(d, k, r.value);
      r
  }

  /** `.*?"type":"mfg".*?\}` started at `j` can take the marker at `m` and
      end (exclusive) at `e`. */
  predicate MarkerSpan(d: string, j: int, m: int, e: int) {
    && 0 <= j <= m && m + |Marker| < e <= |d|
    && OccursAt(d, m, Marker)
    && NoNewline(d, j, m)
    && CloseAt(d, m + |Marker|, e - 1)
  }

  /** `.*?"type":"mfg".*?\}` from `j`; the end of the match (exclusive). */
  function MarkerFrom(d: string, j: nat): (r: Option<nat>)
    requires j <= |d|
    decreases |d| - j
    ensures r.Some? ==> exists m :: MarkerSpan(d, j, m, r.value)
  {
    if OccursAt(d, j, Marker) && CloseFrom(d, j + |Marker|).Some? then
      assert MarkerSpan(d, j, j, CloseFrom(d, j + |Marker|).value + 1);
      Some(CloseFrom(d, j + |Marker|).value + 1)
    else if j < |d| && d[j] != '\n' then
      var r := MarkerFrom(d, j + 1);
      MarkerStep(d, j, j + 1, r);
      r
    else
      None
  }

  lemma CloseStep(d: string, k: nat)
    requires k < |d| && d[k] != '}' && d[k] != '\n'
    ensures forall e :: CloseAt(d, k, e) <==> CloseAt(d, k + 1, e)
  {
    forall e | CloseAt(d, k + 1, e) ensures CloseAt(d, k, e) {
      forall t | k <= t < e ensures d[t] != '\n' {
        if t > k { assert NoNewline(d, k + 1, e); }
      }
    }
  }

  lemma MarkerStep(d: string, j: nat, next: nat, r: Option<nat>)
    requires j < |d| && d[j] != '\n' && next == j + 1
    requires r.Some? ==> exists m :: MarkerSpan(d, next, m, r.value)
    ensures r.Some? ==> exists m :: MarkerSpan(d, j, m, r.value)
  {
    if r.Some? {
      var m :| MarkerSpan(d, j + 1, m, r.value);
      forall t | j <= t < m ensures d[t] != '\n' {
        if t > j { assert NoNewline(d, j + 1, m); }
      }
      assert MarkerSpan(d, j, m, r.value);
    }
  }

  /** A span that starts before `m` is not the one taken at `m`: the marker
      right at `j` closes at or before any span's end. */
  lemma SpanAtStart(d: string, j: nat, e: int)
    requires MarkerSpan(d, j, j, e)
    ensures OccursAt(d, j, Marker) && CloseFrom(d, j + |Marker|).Some?
    ensures CloseFrom(d, j + |Marker|).value < e
  {
    assert CloseAt(d, j + |Marker|, e - 1);
  }

  /** A span whose marker lies after `j` is also a span from `j + 1`. */
  lemma SpanLater(d: string, j: nat, m: int, e: int)
    requires MarkerSpan(d, j, m, e) && j < m
    ensures j < |d| && d[j] != '\n' && MarkerSpan(d, j + 1, m, e)
  {
    assert NoNewline(d, j, m);
  }

  /** A span from `j + 1` is a span from `j` when `d[j]` is not a newline. */
  lemma SpanEarlier(d: string, j: nat, m: int, e: int)
    requires j < |d| && d[j] != '\n' && MarkerSpan(d, j + 1, m, e)
    ensures MarkerSpan(d, j, m, e)
  {
    forall t | j <= t < m ensures d[t] != '\n' {
      if t > j { assert NoNewline(d, j + 1, m); }
    }
  }

  /** The span the lazy pattern takes from `j`: its marker is the leftmost
      that can close, and no span ends earlier. */
  ghost predicate LeastSpan(d: string, j: int, m: int, e: int) {
    MarkerSpan(d, j, m, e) && forall m', e' :: MarkerSpan(d, j, m', e') ==> m <= m' && e <= e'
  }

  ghost predicate HasSpan(d: string, j: int) {
    exists m, e :: MarkerSpan(d, j, m, e)
  }

  /** `MarkerFrom` is what `.*?"type":"mfg".*?\}` takes from `j`: it finds
      an end exactly when some span exists, and the span it finds is the
      least one. */
  lemma {:induction false} MarkerFromSpec(d: string, j: nat)
    requires j <= |d|
    decreases |d| - j
    ensures MarkerFrom(d, j).None? <==> !HasSpan(d, j)
    ensures MarkerFrom(d, j).Some? ==> exists m :: LeastSpan(d, j, m, MarkerFrom(d, j).value)
  {
    if OccursAt(d, j, Marker) && CloseFrom(d, j + |Marker|).Some? {
      MarkerHere(d, j);
    } else if j < |d| && d[j] != '\n' {
      MarkerFromSpec(d, j + 1);
      MarkerLater(d, j);
      var r := MarkerFrom(d, j + 1);
      if r.Some? {
        var m :| LeastSpan(d, j + 1, m, r.value);
        assert LeastSpan(d, j, m, r.value);
      }
    } else {
      MarkerNowhere(d, j);
    }
  }

  /** The marker right at `j`, closed on the same line, is the least span. */
  lemma MarkerHere(d: string, j: nat)
    requires j <= |d| && OccursAt(d, j, Marker) && CloseFrom(d, j + |Marker|).Some?
    ensures LeastSpan(d, j, j, CloseFrom(d, j + |Marker|).value + 1)
  {
    var c := CloseFrom(d, j + |Marker|).value;
    assert MarkerSpan(d, j, j, c + 1);
    forall m', e' | MarkerSpan(d, j, m', e') ensures j <= m' && c + 1 <= e' {
      assert CloseAt(d, m' + |Marker|, e' - 1);
    }
  }

  /** No span takes its marker at `j`, and `d[j]` is not a newline: the
      spans from `j` are those from `j + 1`. */
  lemma MarkerLater(d: string, j: nat)
    requires j < |d| && d[j] != '\n'
    requires !(OccursAt(d, j, Marker) && CloseFrom(d, j + |Marker|).Some?)
    ensures forall m, e :: MarkerSpan(d, j, m, e) <==> MarkerSpan(d, j + 1, m, e)
  {
    forall m, e | MarkerSpan(d, j, m, e) ensures MarkerSpan(d, j + 1, m, e) {
      if m == j {
        SpanAtStart(d, j, e);
      }
      SpanLater(d, j, m, e);
    }
    forall m, e | MarkerSpan(d, j + 1, m, e) ensures MarkerSpan(d, j, m, e) {
      SpanEarlier(d, j, m, e);
    }
  }

  /** At the end of the line, or of the text, with no marker closing at `j`,
      there is no span. */
  lemma MarkerNowhere(d: string, j: nat)
    requires j <= |d| && !(OccursAt(d, j, Marker) && CloseFrom(d, j + |Marker|).Some?)
    requires !(j < |d| && d[j] != '\n')
    ensures !HasSpan(d, j)
  {
    forall m, e | MarkerSpan(d, j, m, e) ensures false {
      if m == j {
        SpanAtStart(d, j, e);
      } else {
        SpanLater(d, j, m, e);
      }
    }
  }

  /** The match that starts at `s`, if any; its end (exclusive). */
  function MatchAt(d: string, s: nat): Option<nat> {
    if s < |d| && d[s] == '{' then MarkerFrom(d, s + 1) else None
  }

  /** `re.search` from position `s`: the leftmost start that matches. */
  function SearchFrom(d: string, s: nat): (r: Option<(nat, nat)>)
    decreases |d| - s
    ensures r.None? ==> forall t :: s <= t ==> MatchAt(d, t).None?
    ensures r.Some? ==> s <= r.value.0 && MatchAt(d, r.value.0) == Some(r.value.1)
                        && forall t :: s <= t < r.value.0 ==> MatchAt(d, t).None?
  {
    if s >= |d| then None
    else
      match MatchAt(d, s)
      case Some(e) => Some((s, e))
      case None => SearchFrom(d, s + 1)
  }

  /** The pattern matches `d[s..e]`: a `{` at `s`, then a span. */
  ghost predicate RegexAt(d: string, s: int, e: int) {
    0 <= s < |d| && d[s] == '{' && SpanEndsAt(d, s + 1, e)
  }

  ghost predicate SpanEndsAt(d: string, j: int, e: int) {
    exists m :: MarkerSpan(d, j, m, e)
  }

  /** `MatchAt` finds a match at `s` exactly when the pattern can match
      there, and ends at the first end the lazy pattern reaches. */
  lemma MatchAtSpec(d: string, s: nat)
    ensures MatchAt(d, s).None? <==> forall e :: !RegexAt(d, s, e)
    ensures MatchAt(d, s).Some? ==>
      RegexAt(d, s, MatchAt(d, s).value) && forall e :: RegexAt(d, s, e) ==> MatchAt(d, s).value <= e
  {
    if s < |d| && d[s] == '{' {
      MarkerFromEnds(d, s + 1);
      var r := MarkerFrom(d, s + 1);
      assert MatchAt(d, s) == r;
      if r.None? {
        forall e ensures !RegexAt(d, s, e) {
          assert !SpanEndsAt(d, s + 1, e);
        }
      } else {
        assert RegexAt(d, s, r.value);
        forall e | RegexAt(d, s, e) ensures r.value <= e {
          assert SpanEndsAt(d, s + 1, e);
        }
      }
    } else {
      assert MatchAt(d, s).None?;
      forall e ensures !RegexAt(d, s, e) { }
    }
  }

  /** `MarkerFromSpec` stated about ends only. */
  lemma MarkerFromEnds(d: string, j: nat)
    requires j <= |d|
    ensures MarkerFrom(d, j).None? <==> forall e :: !SpanEndsAt(d, j, e)
    ensures MarkerFrom(d, j).Some? ==>
      SpanEndsAt(d, j, MarkerFrom(d, j).value) && forall e :: SpanEndsAt(d, j, e) ==> MarkerFrom(d, j).value <= e
  {
    MarkerFromSpec(d, j);
    var r := MarkerFrom(d, j);
    if r.Some? {
      var m :| LeastSpan(d, j, m, r.value);
      assert SpanEndsAt(d, j, r.value);
      forall e | SpanEndsAt(d, j, e) ensures r.value <= e {
        var m' :| MarkerSpan(d, j, m', e);
      }
    } else {
      assert !HasSpan(d, j);
    }
  }

  /** `re.search` as the pattern defines it: no match exactly when the
      pattern matches nowhere; otherwise the match with the leftmost start,
      and at that start the earliest end. */
  lemma SearchSpec(d: string)
    ensures SearchFrom(d, 0).None? <==> forall s, e :: !RegexAt(d, s, e)
    ensures SearchFrom(d, 0).Some? ==>
      var (s, e) := SearchFrom(d, 0).value;
      RegexAt(d, s, e) && forall s', e' :: RegexAt(d, s', e') ==> s < s' || (s == s' && e <= e')
  {
    forall s: nat, e | RegexAt(d, s, e) ensures MatchAt(d, s).Some? && MatchAt(d, s).value <= e {
      MatchAtSpec(d, s);
    }
    var r := SearchFrom(d, 0);
    if r.Some? {
      MatchAtSpec(d, r.value.0);
    }
  }

  /** `match.group(1)` for a line that passes the substring test. */
  function ExtractFrame(line: string): Option<string> {
    if !Contains(line, Guard) then None
    else
      match SearchFrom(line, 0)
      case Some((s, e)) => Some(line[s..e])
      case None => None
  }

  lemma OccursInSlice(d: string, s: nat, e: nat, m: nat, sub: string)
    requires s <= m && m + |sub| <= e <= |d| && OccursAt(d, m, sub)
    ensures OccursAt(d[s..e], m - s, sub)
  {
    var x := d[s..e][m - s..m - s + |sub|];
    var y := d[m..m + |sub|];
    forall i | 0 <= i < |sub| ensures x[i] == y[i] {
      assert x[i] == d[m + i];
    }
    assert x == y;
  }

  lemma MarkerHasNoNewline(d: string, m: nat)
    requires OccursAt(d, m, Marker)
    ensures NoNewline(d, m, m + |Marker|)
  {
    assert '\n' !in Marker;
    forall t | m <= t < m + |Marker| ensures d[t] != '\n' {
      assert d[t] == d[m..m + |Marker|][t - m];
    }
  }

  /** The text a match covers opens with `{`, closes with `}`, holds
      `"type":"mfg"` and no newline. */
  lemma MatchShape(d: string, s: nat, e: nat)
    requires MatchAt(d, s) == Some(e)
    ensures s + 1 + |Marker| < e <= |d|
    ensures d[s] == '{' && d[e - 1] == '}'
    ensures Contains(d[s..e], Marker)
    ensures NoNewline(d, s, e)
  {
    var m :| MarkerSpan(d, s + 1, m, e);
    OccursInSlice(d, s, e, m, Marker);
    MarkerHasNoNewline(d, m);
    assert NoNewline(d, s + 1, m) && NoNewline(d, m + |Marker|, e - 1);
    forall t | s <= t < e ensures d[t] != '\n' {
      if t == s || t == e - 1 {
      } else if t < m {
        assert NoNewline(d, s + 1, m);
      } else if t < m + |Marker| {
        assert NoNewline(d, m, m + |Marker|);
      } else {
        assert NoNewline(d, m + |Marker|, e - 1);
      }
    }
  }

  /** What is passed to `json.loads`: a piece of the line that opens with `{`,
      closes with `}`, holds `"type":"mfg"` and no newline, taken from a line
      that contains `{"type":"mfg"`. */
  lemma FrameShape(line: string)
    requires ExtractFrame(line).Some?
    ensures var f := ExtractFrame(line).value;
      && Contains(line, Guard)
      && Contains(line, f)
      && |f| >= 2 && f[0] == '{' && f[|f| - 1] == '}'
      && Contains(f, Marker)
      && forall t :: 0 <= t < |f| ==> f[t] != '\n'
  {
    assert Contains(line, Guard);
    var (s, e) := SearchFrom(line, 0).value;
    assert ExtractFrame(line) == Some(line[s..e]);
    MatchShape(line, s, e);
    SliceShape(line, s, e);
  }

  /** The shape of a match, stated about the piece of the line it covers. */
  lemma SliceShape(line: string, s: nat, e: nat)
    requires s + 1 < e <= |line|
    requires line[s] == '{' && line[e - 1] == '}'
    requires Contains(line[s..e], Marker)
    requires NoNewline(line, s, e)
    ensures var f := line[s..e];
      && Contains(line, f)
      && |f| >= 2 && f[0] == '{' && f[|f| - 1] == '}'
      && Contains(f, Marker)
      && forall t :: 0 <= t < |f| ==> f[t] != '\n'
  {
    var f := line[s..e];
    assert OccursAt(line, s, f);
    forall t | 0 <= t < |f| ensures f[t] != '\n' {
      assert f[t] == line[s + t];
    }
  }

  /** Every line holding `{"type":"mfg"` followed, on the same line, by a `}`
      yields a frame. */
  lemma GuardThenBraceYieldsFrame(line: string, i: nat, e: nat)
    requires OccursAt(line, i, Guard)
    requires CloseAt(line, i + |Guard|, e)
    ensures ExtractFrame(line).Some?
  {
    assert line[i] == '{' by { assert line[i..i + |Guard|][0] == Guard[0]; }
    assert OccursAt(line, i + 1, Marker) by {
      assert line[i + 1..i + 1 + |Marker|] == line[i..i + |Guard|][1..];
    }
    assert CloseFrom(line, i + 1 + |Marker|).Some?;
    assert MatchAt(line, i).Some?;
    assert Contains(line, Guard);
  }

  /** A `{"type":"mfg"` at `s` followed by text `c` free of `}` and newlines,
      then a `}`: the match at `s` ends just after that `}`. */
  lemma MatchAtGuard(d: string, s: nat, c: string)
    requires s + |Guard| + |c| < |d|
    requires d[s..s + |Guard|] == Guard
    requires d[s + |Guard|..s + |Guard| + |c|] == c
    requires d[s + |Guard| + |c|] == '}'
    requires '}' !in c && '\n' !in c
    ensures MatchAt(d, s) == Some(s + |Guard| + |c| + 1)
  {
    assert Guard == "{" + Marker;
    var m := s + 1;
    var close := s + |Guard| + |c|;
    assert d[s] == '{' by {
      assert d[s] == d[s..s + |Guard|][0];
    }
    assert OccursAt(d, m, Marker) by {
      assert d[m..m + |Marker|] == d[s..s + |Guard|][1..];
    }
    forall t | m + |Marker| <= t < close ensures d[t] != '}' && d[t] != '\n' {
      assert d[t] == d[s + |Guard|..s + |Guard| + |c|][t - s - |Guard|];
    }
    CloseFromIs(d, m + |Marker|, close);
  }

  /** The first `}` after `k`, with no newline before it, is where the
      shortest match closes. */
  lemma CloseFromIs(d: string, k: nat, e: nat)
    requires k <= e < |d| && d[e] == '}'
    requires forall t :: k <= t < e ==> d[t] != '}' && d[t] != '\n'
    ensures CloseFrom(d, k) == Some(e)
  {
    assert CloseAt(d, k, e);
    var r := CloseFrom(d, k);
    assert r.Some? && d[r.value] == '}';
  }

  /** With no match before `s`, the search returns the match at `s`. */
  lemma LeftmostAt(d: string, s: nat, e: nat)
    requires forall t :: 0 <= t < s ==> MatchAt(d, t).None?
    requires MatchAt(d, s) == Some(e)
    ensures SearchFrom(d, 0) == Some((s, e))
  {
    var r := SearchFrom(d, 0);
    assert r.Some? && MatchAt(d, r.value.0) == Some(r.value.1);
  }

  /** A `{"type":"mfg"` at `s` with no `{` before it, followed by text `c`
      free of `}` and newlines, then a `}`: the frame runs from `s` through
      that `}`. */
  lemma FrameAt(d: string, s: nat, c: string)
    requires s + |Guard| + |c| < |d|
    requires forall t :: 0 <= t < s && t < |d| ==> d[t] != '{'
    requires d[s..s + |Guard|] == Guard
    requires d[s + |Guard|..s + |Guard| + |c|] == c
    requires d[s + |Guard| + |c|] == '}'
    requires '}' !in c && '\n' !in c
    ensures ExtractFrame(d) == Some(Guard + c + "}")
  {
    var e := s + |Guard| + |c| + 1;
    assert d[s..e] == Guard + c + "}" by {
      JoinSlices(d, s, Guard, c, '}');
    }
    assert MatchAt(d, s) == Some(e) by {
      MatchAtGuard(d, s, c);
    }
    assert SearchFrom(d, 0) == Some((s, e)) by {
      assert forall t :: 0 <= t < s ==> MatchAt(d, t).None?;
      LeftmostAt(d, s, e);
    }
    assert Contains(d, Guard) by {
      assert OccursAt(d, s, Guard);
    }
    FrameOfSearch(d, s, e);
  }

  lemma FrameOfSearch(d: string, s: nat, e: nat)
    requires Contains(d, Guard) && SearchFrom(d, 0) == Some((s, e))
    ensures ExtractFrame(d) == Some(d[s..e])
  {
  }

  /** `p + Guard + c + "}" + q` with no `{` in `p` and neither `}` nor a
      newline in `c`: the frame is `Guard + c + "}"`, whatever `q` holds. */
  lemma FrameAfterPrefix(p: string, c: string, q: string)
    requires '{' !in p
    requires '}' !in c && '\n' !in c
    ensures ExtractFrame(p + Guard + c + "}" + q) == Some(Guard + c + "}")
  {
    var d := p + Guard + c + "}" + q;
    var s := |p|;
    var e := s + |Guard| + |c| + 1;
    assert d[s..s + |Guard|] == Guard;
    assert d[s + |Guard|..s + |Guard| + |c|] == c;
    assert d[e - 1] == '}';
    forall t | 0 <= t < s && t < |d| ensures d[t] != '{' {
      assert d[t] == p[t];
    }
    FrameAt(d, s, c);
  }

  /** Adjacent pieces of a line, read back as one. */
  lemma JoinSlices(d: string, s: nat, a: string, b: string, ch: char)
    requires s + |a| + |b| < |d|
    requires d[s..s + |a|] == a && d[s + |a|..s + |a| + |b|] == b && d[s + |a| + |b|] == ch
    ensures d[s..s + |a| + |b| + 1] == a + b + [ch]
  {
    var f := d[s..s + |a| + |b| + 1];
    forall i | 0 <= i < |f| ensures f[i] == (a + b + [ch])[i] {
      if i < |a| {
        assert f[i] == d[s..s + |a|][i];
      } else if i < |a| + |b| {
        assert f[i] == d[s + |a|..s + |a| + |b|][i - |a|];
      }
    }
  }

  /** The lazy `.*?\}` stops at the first `}`: a report with a nested object
      reaches `json.loads` cut short, without its outer closing brace. */
  lemma NestedObjectIsCut()
    ensures ExtractFrame(Guard + ",\"d\":{\"a\":1" + "}" + "}")
         == Some(Guard + ",\"d\":{\"a\":1" + "}")
  {
    FrameAfterPrefix("", ",\"d\":{\"a\":1", "}");
    assert "" + Guard == Guard;
  }

  /** A device report surrounded by other output on the same line. */
  lemma ReportAmidNoise()
    ensures ExtractFrame("noise " + Guard + ",\"hw_id\":\"DEV1\",\"result\":\"pass\"" + "}" + " noise")
         == Some(Guard + ",\"hw_id\":\"DEV1\",\"result\":\"pass\"" + "}")
  {
    FrameAfterPrefix("noise ", ",\"hw_id\":\"DEV1\",\"result\":\"pass\"", " noise");
  }

  lemma GuardStart(d: string, i: int)
    requires OccursAt(d, i, Guard)
    ensures d[i] == '{' && d[i + 1..i + |Guard|] == Marker
  {
    assert d[i] == d[i..i + |Guard|][0];
    assert d[i + 1..i + |Guard|] == d[i..i + |Guard|][1..];
  }

  /** The substring test asks for `"type":"mfg"` right after an opening
      brace, so a line whose only `{` starts an object with any other first
      key is never decoded. */
  lemma OtherKeyFirstIgnored(r: string)
    requires '{' !in r && !(|r| >= |Marker| && r[..|Marker|] == Marker)
    ensures ExtractFrame("{" + r).None?
  {
    forall i | OccursAt("{" + r, i, Guard) ensures false {
      GuardInBraced(r, i);
    }
  }

  /** In `{` followed by brace-free text, the guard can only sit at the
      start, with the marker opening the text. */
  lemma GuardInBraced(r: string, i: int)
    requires '{' !in r
    requires OccursAt("{" + r, i, Guard)
    ensures i == 0 && |r| >= |Marker| && r[..|Marker|] == Marker
  {
    var d := "{" + r;
    GuardStart(d, i);
    assert forall t :: 1 <= t < |d| ==> d[t] == r[t - 1];
    assert d[1..1 + |Marker|] == r[..|Marker|];
  }

  lemma TypeMustComeFirst()
    ensures ExtractFrame("{" + "\"hw_id\":\"A\",\"type\":\"mfg\"}").None?
  {
    var r := "\"hw_id\":\"A\",\"type\":\"mfg\"}";
    assert r[..|Marker|][1] != Marker[1];
    OtherKeyFirstIgnored(r);
  }
}
