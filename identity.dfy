/**
  The identity mapper of the delegated-fetch variant: `get_movie_id` reads the
  site's movie identifier out of a detail URL (`re.search(r'movie/(\d+)', url)`),
  and `mapping_dict` builds the table from identifier to row index used to
  re-attach results that arrive keyed only by URL.
 */
module Identity {
  import opened Wrappers
  import opened Strings
  import opened Rows

  const Marker := "movie/"

  /** The pattern `movie/\d` matches at position `p` of `s`. */
  predicate MatchAt(s: string, p: int) {
    0 <= p && p + 7 <= |s| && s[p..p + 6] == Marker && IsAsciiDigit(s[p + 6])
  }

  /** The leftmost match at or after `i`, as `re.search` scans. */
  function FirstMatchFrom(s: string, i: nat): (r: Option<nat>)
    requires i <= |s|
    ensures r.Some? ==> i <= r.value && MatchAt(s, r.value)
    decreases |s| - i
  {
    if i + 7 > |s| then None
    else if MatchAt(s, i) then Some(i)
    else FirstMatchFrom(s, i + 1)
  }

  /** The scan finds a match, nothing matches before it, and finding none means nothing matches. */
  lemma {:induction false} FirstMatchMeaning(s: string, i: nat)
    requires i <= |s|
    ensures var r := FirstMatchFrom(s, i);
      && (r.Some? ==> MatchAt(s, r.value) && forall q :: i <= q < r.value ==> !MatchAt(s, q))
      && (r.None? ==> forall q :: i <= q ==> !MatchAt(s, q))
    decreases |s| - i
  {
    if i + 7 <= |s| && !MatchAt(s, i) {
      FirstMatchMeaning(s, i + 1);
    }
  }

  /**
    `get_movie_id(url)`: nothing for a non-string; otherwise the greedy digit
    run after the leftmost "movie/" that is followed by a digit, and nothing
    when there is no such occurrence.
   */
  function MovieId(url: Cell): (r: Option<string>)
    ensures url.NaN? ==> r.None?
    ensures r.Some? ==> r.value != [] && forall k :: 0 <= k < |r.value| ==> IsAsciiDigit(r.value[k])
  {
    match url
    case NaN => None
    case Text(s) =>
      match FirstMatchFrom(s, 0)
      case None => None
      case Some(p) => Some(DigitRun(s[p + 6..]))
  }

  /**
    There is an identifier exactly when `movie/\d` matches somewhere; it is
    what follows the leftmost match, and the run of digits is maximal.
   */
  lemma MovieIdMeaning(s: string)
    ensures MovieId(Text(s)).None? <==> forall p :: !MatchAt(s, p)
    ensures MovieId(Text(s)).Some? ==>
      var id := MovieId(Text(s)).value;
      var p := FirstMatchFrom(s, 0).value;
      && p + 6 + |id| <= |s|
      && s[p..p + 6 + |id|] == Marker + id
      && (p + 6 + |id| == |s| || !IsAsciiDigit(s[p + 6 + |id|]))
  {
    FirstMatchMeaning(s, 0);
    match FirstMatchFrom(s, 0)
    case None =>
      MovieIdAbsent(s);
      forall p ensures !MatchAt(s, p) {
        if p < 0 { }
      }
    case Some(p) =>
      MovieIdAt(s, p);
      IdAfterMarker(s, p);
  }

  /** The text at a match: the marker, then the maximal digit run after it. */
  lemma IdAfterMarker(s: string, p: nat)
    requires MatchAt(s, p)
    ensures var id := DigitRun(s[p + 6..]);
      && p + 6 + |id| <= |s|
      && s[p..p + 6 + |id|] == Marker + id
      && (p + 6 + |id| == |s| || !IsAsciiDigit(s[p + 6 + |id|]))
  {
    var id := DigitRun(s[p + 6..]);
    assert s[p..p + 6 + |id|] == s[p..p + 6] + s[p + 6..][..|id|];
  }

  /** No match, no identifier. */
  lemma MovieIdAbsent(s: string)
    requires FirstMatchFrom(s, 0).None?
    ensures MovieId(Text(s)).None?
  {
  }

  /** A match is the one the scan from `i` finds when nothing matches between `i` and it. */
  lemma {:induction false} LeftmostMatch(s: string, i: nat, p: nat)
    requires i <= p && MatchAt(s, p) && forall q :: i <= q < p ==> !MatchAt(s, q)
    ensures FirstMatchFrom(s, i) == Some(p)
    decreases p - i
  {
    if i < p {
      LeftmostMatch(s, i + 1, p);
    }
  }

  /** The worked example: ".../movie/603/the-matrix" has the identifier "603". */
  lemma MovieIdExample()
    ensures MovieId(Text(".../movie/603/the-matrix")) == Some("603")
  {
    var head, id, tail := ".../" + Marker, "603", "/the-matrix";
    ExampleSpelled(head, id, tail);
    MatchExample();
    ExampleIdAt(head, id, tail);
  }

  /** The example URL in three parts. */
  lemma ExampleSpelled(head: string, id: string, tail: string)
    requires head == ".../" + Marker && id == "603" && tail == "/the-matrix"
    ensures head + (id + tail) == ".../movie/603/the-matrix"
  {
  }

  /** The identifier after a match at the end of `head`. */
  lemma ExampleIdAt(head: string, id: string, tail: string)
    requires |head| >= 6 && FirstMatchFrom(head + (id + tail), 0) == Some(|head| - 6)
    requires id == "603" && tail == "/the-matrix"
    ensures MovieId(Text(head + (id + tail))) == Some(id)
  {
    var s := head + (id + tail);
    MovieIdAt(s, |head| - 6);
    assert s[|head|..] == id + tail;
    DigitRunStopsAtNonDigit(id, tail);
    DigitRunOfDigits(id);
  }

  /** The leftmost match in ".../movie/603/the-matrix" is at 4. */
  lemma MatchExample()
    ensures FirstMatchFrom(".../movie/603/the-matrix", 0) == Some(4)
  {
    var s := ".../movie/603/the-matrix";
    assert s[4..10] == Marker;
    assert MatchAt(s, 4);
    forall q | 0 <= q < 4 ensures !MatchAt(s, q) {
      assert s[q] != 'm';
      assert s[q..q + 6][0] == s[q];
    }
    LeftmostMatch(s, 0, 4);
  }

  /** `t` is the slice of `s` at `a` and everything around it is whitespace. */
  predicate Surrounded(s: string, a: nat, t: string) {
    && a + |t| <= |s| && t == s[a..a + |t|]
    && (forall k :: 0 <= k < a ==> IsSpace(s[k]))
    && (forall k :: a + |t| <= k < |s| ==> IsSpace(s[k]))
  }

  /**
    Matches in a slice `t` of `s` that is surrounded only by whitespace are
    exactly the matches of `s`, shifted: a match never touches whitespace.
   */
  lemma MatchInSlice(s: string, a: nat, t: string, q: int)
    requires Surrounded(s, a, t)
    ensures MatchAt(t, q) <==> MatchAt(s, a + q)
  {
    if q < 0 {
      assert !MatchAt(s, a + q) by {
        if 0 <= a + q && a + q + 7 <= |s| {
          assert s[a + q..a + q + 6][0] == s[a + q];
        }
      }
    } else if q + 7 <= |t| {
      assert forall k :: 0 <= k < |t| ==> t[k] == s[a + k];
      var u, v := t[q..q + 6], s[a + q..a + q + 6];
      forall j | 0 <= j < 6 ensures u[j] == v[j] {
        assert t[q + j] == s[a + q + j];
      }
      assert u == v;
      assert t[q + 6] == s[a + q + 6];
    } else {
      assert !MatchAt(s, a + q) by {
        if a + q + 7 <= |s| {
          assert IsSpace(s[a + q + 6]);
        }
      }
    }
  }

  /**
    The leftmost match in a slice `t` of `s` surrounded only by whitespace is
    the leftmost match in `s`, shifted.
   */
  lemma FirstMatchOfSlice(s: string, a: nat, t: string)
    requires Surrounded(s, a, t)
    ensures FirstMatchFrom(t, 0).None? ==> FirstMatchFrom(s, 0).None?
    ensures FirstMatchFrom(t, 0).Some? ==> FirstMatchFrom(s, 0) == Some(a + FirstMatchFrom(t, 0).value)
  {
    FirstMatchMeaning(t, 0);
    if FirstMatchFrom(t, 0).None? {
      NoMatchInSlice(s, a, t);
    } else {
      LeftmostMatchInSlice(s, a, t, FirstMatchFrom(t, 0).value);
    }
  }

  /** A slice without a match, surrounded by whitespace, leaves nothing to match. */
  lemma NoMatchInSlice(s: string, a: nat, t: string)
    requires Surrounded(s, a, t) && forall q :: 0 <= q ==> !MatchAt(t, q)
    ensures FirstMatchFrom(s, 0).None?
  {
    FirstMatchMeaning(s, 0);
    forall p ensures !MatchAt(s, p) {
      MatchInSlice(s, a, t, p - a);
    }
  }

  /** The leftmost match of a slice, surrounded by whitespace, is leftmost in the text. */
  lemma LeftmostMatchInSlice(s: string, a: nat, t: string, q: nat)
    requires Surrounded(s, a, t) && MatchAt(t, q) && forall q' :: 0 <= q' < q ==> !MatchAt(t, q')
    ensures FirstMatchFrom(s, 0) == Some(a + q)
  {
    MatchInSlice(s, a, t, q);
    forall p | 0 <= p < a + q ensures !MatchAt(s, p) {
      MatchInSlice(s, a, t, p - a);
    }
    LeftmostMatch(s, 0, a + q);
  }

  /** A slice surrounded only by whitespace yields the same identifier. */
  lemma MovieIdOfSlice(s: string, a: nat, t: string)
    requires Surrounded(s, a, t)
    ensures MovieId(Text(t)) == MovieId(Text(s))
  {
    FirstMatchOfSlice(s, a, t);
    var ft := FirstMatchFrom(t, 0);
    if ft.None? {
      MovieIdAbsent(t);
      MovieIdAbsent(s);
    } else {
      var q := ft.value;
      DigitRunInSlice(s, a, t, q + 6);
      SameIdAtShiftedMatch(t, s, q, a + q);
    }
  }

  /** Two texts whose leftmost matches are followed by the same digit run have the same identifier. */
  lemma SameIdAtShiftedMatch(t: string, s: string, q: nat, p: nat)
    requires FirstMatchFrom(t, 0) == Some(q) && FirstMatchFrom(s, 0) == Some(p)
    requires DigitRun(t[q + 6..]) == DigitRun(s[p + 6..])
    ensures MovieId(Text(t)) == MovieId(Text(s))
  {
    MovieIdAt(t, q);
    MovieIdAt(s, p);
  }

  /** The identifier of a text whose leftmost match is at `p`. */
  lemma MovieIdAt(s: string, p: nat)
    requires FirstMatchFrom(s, 0) == Some(p)
    ensures p + 6 <= |s| && MovieId(Text(s)) == Some(DigitRun(s[p + 6..]))
  {
  }

  /**
    Stripping a URL does not change its identifier: the queries the delegated
    variant sends carry stripped URLs while the map is built from raw ones.
   */
  lemma MovieIdOfStripped(s: string)
    ensures MovieId(Text(Strip(s))) == MovieId(Text(s))
  {
    MovieIdOfSlice(s, LeadingSpaces(s), Strip(s));
  }

  /** A digit run inside the stripped text is the digit run at the same place in the raw text. */
  lemma DigitRunInSlice(s: string, a: nat, t: string, i: nat)
    requires Surrounded(s, a, t) && i <= |t|
    ensures DigitRun(t[i..]) == DigitRun(s[a + i..])
  {
    var x := t[i..];
    var y := s[a + |t|..];
    assert s[a + i..] == x + y by {
      assert s[a + i..] == s[a + i..a + |t|] + s[a + |t|..];
      forall k | 0 <= k < |x| ensures x[k] == s[a + i + k] { }
      assert x == s[a + i..a + |t|];
    }
    assert y == [] || IsSpace(y[0]);
    DigitRunStopsAtNonDigit(x, y);
  }

  /** The identifier a row's URL cell yields. */
  function RowId(row: SourceRow): Option<string>
    requires HasUrl(row)
  {
    MovieId(Url(row))
  }

  /** The position of the last of the first `n` rows whose URL yields `id`. */
  ghost function LastWith(rows: seq<SourceRow>, n: nat, id: string): (r: Option<nat>)
    requires n <= |rows| && AllHaveUrls(rows)
    ensures r.Some? ==> r.value < n && RowId(rows[r.value]) == Some(id)
    ensures r.Some? ==> forall k :: r.value < k < n ==> RowId(rows[k]) != Some(id)
    ensures r.None? ==> forall k :: 0 <= k < n ==> RowId(rows[k]) != Some(id)
  {
    if n == 0 then None
    else if RowId(rows[n - 1]) == Some(id) then Some(n - 1)
    else
      var prev := LastWith(rows, n - 1, id);
      LastWithStep(rows, n, id, prev);
      prev
  }

  /** A row that does not yield `id` leaves the last position with `id` where it was. */
  lemma LastWithStep(rows: seq<SourceRow>, n: nat, id: string, prev: Option<nat>)
    requires 0 < n <= |rows| && AllHaveUrls(rows) && RowId(rows[n - 1]) != Some(id)
    requires prev.Some? ==> prev.value < n - 1 && RowId(rows[prev.value]) == Some(id)
    requires prev.Some? ==> forall k :: prev.value < k < n - 1 ==> RowId(rows[k]) != Some(id)
    requires prev.None? ==> forall k :: 0 <= k < n - 1 ==> RowId(rows[k]) != Some(id)
    ensures prev.Some? ==> forall k :: prev.value < k < n ==> RowId(rows[k]) != Some(id)
    ensures prev.None? ==> forall k :: 0 <= k < n ==> RowId(rows[k]) != Some(id)
  {
  }

  /**
    `m` is what `mapping_dict` builds from the first `n` rows: its keys are
    exactly the identifiers those rows yield, and each maps to the index of
    the last of them with that identifier.
   */
  ghost predicate IsIdMapOf(rows: seq<SourceRow>, n: nat, m: map<string, int>)
    requires n <= |rows| && AllHaveUrls(rows)
  {
    forall id :: (id in m <==> LastWith(rows, n, id).Some?)
              && (id in m ==> m[id] == rows[LastWith(rows, n, id).value].index)
  }

  ghost predicate IsIdMap(rows: seq<SourceRow>, m: map<string, int>)
    requires AllHaveUrls(rows)
  {
    IsIdMapOf(rows, |rows|, m)
  }

  /** `mapping_dict(tuple_list)`: a later row with the same identifier overwrites an earlier one. */
  method MappingDict(rows: seq<SourceRow>) returns (m: map<string, int>)
    requires AllHaveUrls(rows)
    ensures IsIdMap(rows, m)
  {
    m := map[];
    for i := 0 to |rows|
      invariant IsIdMapOf(rows, i, m)
    {
      var id := RowId(rows[i]);
      // `if movie_id:` holds for every identifier, which is never empty
      if id.Some? {
        m := m[id.value := rows[i].index];
      }
    }
  }

  /** With unique row indices, distinct identifiers map to distinct indices. */
  lemma IdMapInjective(rows: seq<SourceRow>, m: map<string, int>, id1: string, id2: string)
    requires AllHaveUrls(rows) && UniqueIndices(rows) && IsIdMap(rows, m)
    requires id1 in m && id2 in m && m[id1] == m[id2]
    ensures id1 == id2
  {
    var k1 := LastWith(rows, |rows|, id1).value;
    var k2 := LastWith(rows, |rows|, id2).value;
    assert rows[k1].index == rows[k2].index;
    assert k1 == k2;
  }

  /** The map sends the identifier of the last row that yields it to that row's index. */
  lemma IdMapPointsToLastRow(rows: seq<SourceRow>, m: map<string, int>, k: nat)
    requires AllHaveUrls(rows) && IsIdMap(rows, m)
    requires k < |rows| && RowId(rows[k]).Some?
    requires forall k' :: k < k' < |rows| ==> RowId(rows[k']) != RowId(rows[k])
    ensures RowId(rows[k]).value in m && m[RowId(rows[k]).value] == rows[k].index
  {
    var id := RowId(rows[k]).value;
    assert LastWith(rows, |rows|, id) == Some(k);
  }
}
