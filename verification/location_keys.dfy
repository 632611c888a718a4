/**
  Location-key extraction: the post-query half of `Geocoder.get_event_loc`.
  Each article row carries a nullable, comma-joined `event_loc` text; the keys
  are its comma pieces, stripped of surrounding whitespace, empty ones dropped,
  then de-duplicated in first-seen order (`list(dict.fromkeys(...))`).
*/
module LocationKeys {
  import opened Wrappers
  import opened Seqs

  // ---------------------------------------------------------------------------
  // Python string primitives
  // ---------------------------------------------------------------------------

  /** The characters Python's `str.isspace()` accepts, i.e. what `str.strip()` removes. */
  const Whitespace: set<char> := {
    ' ', '\t', '\n', '\U{B}', '\U{C}', '\r', '\U{1C}', '\U{1D}', '\U{1E}', '\U{1F}',
    '\U{85}', '\U{A0}', '\U{1680}',
    '\U{2000}', '\U{2001}', '\U{2002}', '\U{2003}', '\U{2004}', '\U{2005}',
    '\U{2006}', '\U{2007}', '\U{2008}', '\U{2009}', '\U{200A}',
    '\U{2028}', '\U{2029}', '\U{202F}', '\U{205F}', '\U{3000}'
  }

  predicate IsSpace(c: char) {
    c in Whitespace
  }

  ghost predicate AllSpace(s: string) {
    forall i :: 0 <= i < |s| ==> IsSpace(s[i])
  }

  /** Neither begins nor ends with whitespace. */
  ghost predicate IsTrimmed(s: string) {
    s != [] ==> !IsSpace(s[0]) && !IsSpace(s[|s| - 1])
  }

  /** `s.split(",")`: the pieces between commas, in order; `"".split(",") == [""]`. */
  function Split(s: string): (pieces: seq<string>)
    ensures |pieces| >= 1
  {
    if s == [] then [""]
    else
      var rest := Split(s[1..]);
      if s[0] == ',' then [""] + rest
      else [[s[0]] + rest[0]] + rest[1..]
  }

  /** `",".join(pieces)`, the inverse of `Split`. */
  function Join(pieces: seq<string>): string {
    if |pieces| == 0 then ""
    else if |pieces| == 1 then pieces[0]
    else pieces[0] + "," + Join(pieces[1..])
  }

  lemma {:induction false} JoinSplit(s: string)
    ensures Join(Split(s)) == s
  {
    if s != [] {
      JoinSplit(s[1..]);
      var rest := Split(s[1..]);
      if s[0] != ',' && |rest| > 1 {
        assert rest == [rest[0]] + rest[1..];
      }
    }
  }

  /** No piece contains the separator. */
  lemma {:induction false} SplitPiecesHaveNoComma(s: string)
    ensures forall i :: 0 <= i < |Split(s)| ==> ',' !in Split(s)[i]
  {
    if s != [] {
      SplitPiecesHaveNoComma(s[1..]);
    }
  }

  lemma {:induction false} SplitNoComma(p: string)
    requires ',' !in p
    ensures Split(p) == [p]
  {
    if p != [] {
      assert p == [p[0]] + p[1..];
      SplitNoComma(p[1..]);
    }
  }

  lemma {:induction false} SplitPrefix(p: string, t: string)
    requires ',' !in p
    ensures Split(p + "," + t) == [p] + Split(t)
  {
    if p == [] {
      assert p + "," + t == [','] + t;
    } else {
      assert p == [p[0]] + p[1..];
      assert (p + "," + t)[1..] == p[1..] + "," + t;
      SplitPrefix(p[1..], t);
    }
  }

  lemma {:induction false} SplitJoin(pieces: seq<string>)
    requires |pieces| >= 1
    requires forall i :: 0 <= i < |pieces| ==> ',' !in pieces[i]
    ensures Split(Join(pieces)) == pieces
  {
    if |pieces| == 1 {
      SplitNoComma(pieces[0]);
    } else {
      SplitJoin(pieces[1..]);
      SplitPrefix(pieces[0], Join(pieces[1..]));
    }
  }

  function TrimLeft(s: string): (r: string)
    ensures |r| <= |s|
    ensures r != [] ==> !IsSpace(r[0])
  {
    if s != [] && IsSpace(s[0]) then TrimLeft(s[1..]) else s
  }

  function TrimRight(s: string): (r: string)
    ensures |r| <= |s|
    ensures r != [] ==> !IsSpace(r[|r| - 1])
  {
    if s != [] && IsSpace(s[|s| - 1]) then TrimRight(s[..|s| - 1]) else s
  }

  /** `TrimLeft` drops a whitespace-only prefix and nothing else. */
  lemma {:induction false} TrimLeftIsSuffix(s: string)
    ensures TrimLeft(s) == s[|s| - |TrimLeft(s)|..]
    ensures AllSpace(s[..|s| - |TrimLeft(s)|])
  {
    if s != [] && IsSpace(s[0]) {
      TrimLeftIsSuffix(s[1..]);
      var k := |s| - |TrimLeft(s)|;
      assert s[..k] == [s[0]] + s[1..][..k - 1];
    }
  }

  /** `TrimRight` drops a whitespace-only suffix and nothing else. */
  lemma {:induction false} TrimRightIsPrefix(s: string)
    ensures TrimRight(s) == s[..|TrimRight(s)|]
    ensures AllSpace(s[|TrimRight(s)|..])
  {
    if s != [] && IsSpace(s[|s| - 1]) {
      var p := s[..|s| - 1];
      TrimRightIsPrefix(p);
      var k := |TrimRight(s)|;
      assert s[k..] == p[k..] + [s[|s| - 1]];
    }
  }

  /** `s.strip()`. */
  function Strip(s: string): (r: string)
    ensures IsTrimmed(r)
  {
    var l := TrimLeft(s);
    TrimRightIsPrefix(l);
    TrimRight(l)
  }

  /** `Strip` removes whitespace only, from both ends: what is left is an infix of `s`. */
  lemma StripIsInfix(s: string)
    ensures var a := |s| - |TrimLeft(s)|;
            && a + |Strip(s)| <= |s|
            && Strip(s) == s[a..a + |Strip(s)|]
            && AllSpace(s[..a]) && AllSpace(s[a + |Strip(s)|..])
  {
    var l := TrimLeft(s);
    var a := |s| - |l|;
    var r := TrimRight(l);
    TrimLeftIsSuffix(s);
    TrimRightIsPrefix(l);
    assert Strip(s) == r;
    assert r == s[a..a + |r|] by {
      assert l == s[a..];
      assert r == l[..|r|];
    }
    assert AllSpace(s[a + |r|..]) by {
      assert l[|r|..] == s[a + |r|..];
    }
  }

  lemma StripKeepsChars(s: string, c: char)
    requires c in Strip(s)
    ensures c in s
  {
    StripIsInfix(s);
    var a := |s| - |TrimLeft(s)|;
    var k :| 0 <= k < |Strip(s)| && Strip(s)[k] == c;
    assert s[a + k] == c;
  }

  lemma StripTrimmed(s: string)
    requires IsTrimmed(s)
    ensures Strip(s) == s
  {
  }

  /** Stripping twice is stripping once. */
  lemma StripIdempotent(s: string)
    ensures Strip(Strip(s)) == Strip(s)
  {
    StripTrimmed(Strip(s));
  }

  // ---------------------------------------------------------------------------
  // Keys of one row and of all rows
  // ---------------------------------------------------------------------------

  /** One pass of the inner loop: the stripped piece, kept only when non-empty. */
  function PieceToken(piece: string): seq<string> {
    var t := Strip(piece);
    if t != "" then [t] else []
  }

  /** The keys one row contributes; a null or empty `event_loc` contributes none. */
  function RowTokens(loc: Option<string>): seq<string> {
    if loc.None? || loc.value == "" then [] else FlatMap(PieceToken, Split(loc.value))
  }

  /** The `event_locs` list after both loops, before de-duplication. */
  function RawKeys(rows: seq<Option<string>>): seq<string> {
    FlatMap(RowTokens, rows)
  }

  /** The keys of a list of rows: `get_event_loc` after its query. */
  function EventLocKeys(rows: seq<Option<string>>): seq<string> {
    Dedup(RawKeys(rows))
  }

  /** `x` is a non-empty stripped comma piece of the row's `event_loc`. */
  ghost predicate IsTokenOf(x: string, loc: Option<string>) {
    && loc.Some? && loc.value != "" && x != ""
    && exists p :: p in Split(loc.value) && Strip(p) == x
  }

  lemma RowTokensMembers(loc: Option<string>, x: string)
    ensures x in RowTokens(loc) <==> IsTokenOf(x, loc)
  {
    if loc.Some? && loc.value != "" {
      var pieces := Split(loc.value);
      FlatMapMembers(PieceToken, pieces, x);
      if x in RowTokens(loc) {
        assert IsTokenOf(x, loc) by {
          var j :| 0 <= j < |pieces| && x in PieceToken(pieces[j]);
          assert Strip(pieces[j]) == x;
        }
      }
      if IsTokenOf(x, loc) {
        assert x in RowTokens(loc) by {
          var p :| p in pieces && Strip(p) == x;
          var j :| 0 <= j < |pieces| && pieces[j] == p;
          assert x in PieceToken(pieces[j]);
        }
      }
    }
  }

  /** Every key is a non-empty, whitespace-trimmed piece of some row, and no other string is. */
  lemma KeysAreRowTokens(rows: seq<Option<string>>, x: string)
    ensures x in EventLocKeys(rows) <==> exists i :: 0 <= i < |rows| && IsTokenOf(x, rows[i])
    ensures x in EventLocKeys(rows) ==> x != "" && IsTrimmed(x) && ',' !in x
  {
    FlatMapMembers(RowTokens, rows, x);
    forall i | 0 <= i < |rows| {
      RowTokensMembers(rows[i], x);
    }
    if x in EventLocKeys(rows) {
      var i :| 0 <= i < |rows| && IsTokenOf(x, rows[i]);
      var p :| p in Split(rows[i].value) && Strip(p) == x;
      SplitPiecesHaveNoComma(rows[i].value);
      if ',' in x {
        StripKeepsChars(p, ',');
      }
    }
  }

  /**
    Keys come in first-seen order: rows in the order they were fetched, pieces in
    their order within a row; a key earlier in the list first occurs earlier there.
  */
  lemma KeysFirstSeenOrder(rows: seq<Option<string>>)
    ensures forall i, j :: 0 <= i < j < |EventLocKeys(rows)| ==>
      FirstIndex(RawKeys(rows), EventLocKeys(rows)[i]) < FirstIndex(RawKeys(rows), EventLocKeys(rows)[j])
  {
    DedupFirstSeenOrder(RawKeys(rows));
  }

  /** A row whose `event_loc` is null or empty can be removed without changing the keys. */
  lemma BlankRowContributesNothing(rows: seq<Option<string>>, i: nat)
    requires i < |rows|
    requires rows[i].None? || rows[i].value == ""
    ensures EventLocKeys(rows[..i] + rows[i + 1..]) == EventLocKeys(rows)
  {
    var pre, post := rows[..i], rows[i + 1..];
    var r := rows[i];
    assert RawKeys(pre + post) == RawKeys(rows) by {
      assert rows == (pre + [r]) + post;
      assert FlatMap(RowTokens, [r]) == [] by {
        FlatMapSnoc(RowTokens, [r], 0);
        assert [r][..1] == [r];
      }
      FlatMapAppend(RowTokens, pre + [r], post);
      FlatMapAppend(RowTokens, pre, [r]);
      FlatMapAppend(RowTokens, pre, post);
    }
  }

  /** One pass of the inner loop keeps `acc == before + FlatMap(PieceToken, pieces[..j])`. */
  lemma PieceStep(acc: seq<string>, before: seq<string>, pieces: seq<string>, j: nat)
    requires j < |pieces|
    requires acc == before + FlatMap(PieceToken, pieces[..j])
    ensures var t := Strip(pieces[j]);
            (if t != "" then acc + [t] else acc) == before + FlatMap(PieceToken, pieces[..j + 1])
  {
    FlatMapSnoc(PieceToken, pieces, j);
  }

  // ---------------------------------------------------------------------------
  // The loops of get_event_loc
  // ---------------------------------------------------------------------------

  /**
    The post-query body of `get_event_loc`: the nested loops that append each
    stripped, non-empty piece, then `dict.fromkeys` de-duplication.
  */
  method CollectKeys(rows: seq<Option<string>>) returns (keys: seq<string>)
    ensures keys == EventLocKeys(rows)
    ensures NoDup(keys)
    ensures forall x :: x in keys <==> exists i :: 0 <= i < |rows| && IsTokenOf(x, rows[i])
  {
    var eventLocs: seq<string> := [];
    for i := 0 to |rows|
      invariant eventLocs == RawKeys(rows[..i])
    {
      FlatMapSnoc(RowTokens, rows, i);
      var locs := rows[i];
      if locs.None? || locs.value == "" {
        continue;
      }
      var pieces := Split(locs.value);
      ghost var before := eventLocs;
      for j := 0 to |pieces|
        invariant eventLocs == before + FlatMap(PieceToken, pieces[..j])
      {
        PieceStep(eventLocs, before, pieces, j);
        var loc := Strip(pieces[j]);
        if loc != "" {
          eventLocs := eventLocs + [loc];
        }
      }
      assert pieces[..|pieces|] == pieces;
    }
    assert rows[..|rows|] == rows;
    keys := Dedup(eventLocs);
    forall x | true
      ensures x in keys <==> exists i :: 0 <= i < |rows| && IsTokenOf(x, rows[i])
    {
      KeysAreRowTokens(rows, x);
    }
  }
}
