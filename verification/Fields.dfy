/** The splitting of separated lists, as used for the list of addresses on the command line. */
module Fields {

  /** sep occurs in s at position i. */
  predicate Match(s: string, sep: string, i: nat) {
    i + |sep| <= |s| && s[i..i + |sep|] == sep
  }

  ghost predicate Contains(s: string, sep: string) {
    exists i: nat :: Match(s, sep, i)
  }

  function Join(pieces: seq<string>, sep: string): string {
    if pieces == [] then ""
    else if |pieces| == 1 then pieces[0]
    else pieces[0] + sep + Join(pieces[1..], sep)
  }

  /** From start on, sep first occurs at position i. */
  ghost predicate FirstMatch(s: string, sep: string, start: nat, i: nat) {
    start <= i && Match(s, sep, i) && forall j: nat :: start <= j < i ==> !Match(s, sep, j)
  }

  /** pieces is what s has from start on, cut at the leftmost separator, again and again. */
  ghost predicate IsSplitFrom(s: string, sep: string, start: nat, pieces: seq<string>)
    decreases |pieces|
  {
    start <= |s| && pieces != [] &&
    if |pieces| == 1 then pieces[0] == s[start..] && forall j: nat :: start <= j ==> !Match(s, sep, j)
    else
      var i := start + |pieces[0]|;
      FirstMatch(s, sep, start, i) && s[start..i] == pieces[0] && IsSplitFrom(s, sep, i + |sep|, pieces[1..])
  }

  ghost predicate IsSplit(s: string, sep: string, pieces: seq<string>) {
    IsSplitFrom(s, sep, 0, pieces)
  }

  lemma {:induction false} SplitUnique(s: string, sep: string, start: nat, p: seq<string>, q: seq<string>)
    requires IsSplitFrom(s, sep, start, p) && IsSplitFrom(s, sep, start, q)
    ensures p == q
    decreases |p|
  {
    if |p| > 1 && |q| > 1 {
      assert |p[0]| == |q[0]|;
      SplitUnique(s, sep, start + |p[0]| + |sep|, p[1..], q[1..]);
      assert p == [p[0]] + p[1..] && q == [q[0]] + q[1..];
    }
  }

  /** Joining the pieces gives back the input, and no piece contains the separator. */
  lemma {:induction false} SplitJoins(s: string, sep: string, start: nat, pieces: seq<string>)
    requires IsSplitFrom(s, sep, start, pieces) && sep != ""
    ensures Join(pieces, sep) == s[start..] && forall p :: p in pieces ==> !Contains(p, sep)
    decreases |pieces|
  {
    var p, i := pieces[0], start + |pieces[0]|;
    assert p == s[start..i];
    forall j: nat ensures !Match(p, sep, j) {
      if Match(p, sep, j) {
        SliceOfSlice(s, start, i, j, j + |sep|);
        assert Match(s, sep, start + j);
      }
    }
    if |pieces| > 1 {
      SplitJoins(s, sep, i + |sep|, pieces[1..]);
      Suffixes(s, start, i, i + |sep|);
      assert pieces == [p] + pieces[1..];
    }
  }

  lemma Suffixes(s: string, a: nat, b: nat, c: nat)
    requires a <= b <= c <= |s|
    ensures s[a..] == s[a..b] + s[b..c] + s[c..]
  {
  }

  /** No separator begins inside a piece when the pieces are joined. */
  ghost predicate Clear(pieces: seq<string>, sep: string) {
    forall k: nat, i: nat :: !BeginsIn(pieces, sep, k, i)
  }

  /** When joined, sep begins at position i of piece k. */
  predicate BeginsIn(pieces: seq<string>, sep: string, k: nat, i: nat) {
    k < |pieces| && i < |pieces[k]| && Match(if k < |pieces| - 1 then pieces[k] + sep else pieces[k], sep, i)
  }

  /** Splitting inverts joining exactly when no separator begins inside a piece. */
  lemma {:induction false} SplitOfJoinIff(s: string, start: nat, pieces: seq<string>, sep: string)
    requires sep != "" && pieces != [] && start <= |s| && s[start..] == Join(pieces, sep)
    ensures IsSplitFrom(s, sep, start, pieces) <==> Clear(pieces, sep)
    decreases |pieces|
  {
    var p, i := pieces[0], start + |pieces[0]|;
    if |pieces| == 1 {
      forall j: nat ensures BeginsIn(pieces, sep, 0, j) <==> Match(s, sep, start + j) {
        MatchSuffix(s, start, sep, j);
      }
      if Clear(pieces, sep) {
        forall j: nat | start <= j ensures !Match(s, sep, j) { assert !BeginsIn(pieces, sep, 0, j - start); }
      }
    } else {
      var rest := Join(pieces[1..], sep);
      Decompose(s, start, p, sep, rest);
      SplitOfJoinIff(s, i + |sep|, pieces[1..], sep);
      ClearTail(pieces, sep);
      MatchesInPiece(s, start, p, sep);
    }
  }

  /** Where sep begins inside a piece p, up to the separator after it. */
  lemma MatchesInPiece(s: string, start: nat, p: string, sep: string)
    requires start + |p| + |sep| <= |s| && s[start..start + |p|] == p && Match(s, sep, start + |p|)
    ensures FirstMatch(s, sep, start, start + |p|) <==> forall j: nat :: j < |p| ==> !Match(p + sep, sep, j)
  {
    var i := start + |p|;
    assert s[start..i + |sep|] == s[start..i] + s[i..i + |sep|] == p + sep;
    forall j: nat | j < |p| ensures Match(s, sep, start + j) <==> Match(p + sep, sep, j) {
      SliceOfSlice(s, start, i + |sep|, j, j + |sep|);
    }
    if forall j: nat :: j < |p| ==> !Match(p + sep, sep, j) {
      forall j: nat | start <= j < i ensures !Match(s, sep, j) { assert !Match(p + sep, sep, j - start); }
    }
  }

  lemma SliceOfSlice(s: string, a: nat, b: nat, i: nat, j: nat)
    requires a <= b <= |s| && i <= j <= b - a
    ensures s[a..b][i..j] == s[a + i..a + j]
  {
    forall k | 0 <= k < j - i ensures s[a..b][i..j][k] == s[a + i..a + j][k] {
      assert s[a..b][i + k] == s[a + i + k];
    }
  }

  lemma MatchSuffix(s: string, start: nat, sep: string, j: nat)
    requires start <= |s|
    ensures Match(s[start..], sep, j) <==> Match(s, sep, start + j)
  {
  }

  lemma Decompose(s: string, start: nat, p: string, sep: string, rest: string)
    requires start <= |s| && s[start..] == p + sep + rest
    ensures var i := start + |p|; i + |sep| <= |s| && s[start..i] == p && Match(s, sep, i) && s[i + |sep|..] == rest
  {
  }

  lemma ClearTail(pieces: seq<string>, sep: string)
    requires |pieces| > 1
    ensures Clear(pieces, sep) <==> Clear(pieces[1..], sep) && forall i: nat :: i < |pieces[0]|
                                                                 ==> !Match(pieces[0] + sep, sep, i)
  {
    var tail := pieces[1..];
    forall k: nat, i: nat ensures BeginsIn(tail, sep, k, i) <==> BeginsIn(pieces, sep, k + 1, i) {
    }
    if Clear(tail, sep) && forall i: nat :: i < |pieces[0]| ==> !Match(pieces[0] + sep, sep, i) {
      forall k: nat, i: nat ensures !BeginsIn(pieces, sep, k, i) {
        if k > 0 { assert !BeginsIn(tail, sep, k - 1, i); }
      }
    }
    if Clear(pieces, sep) {
      forall i: nat | i < |pieces[0]| ensures !Match(pieces[0] + sep, sep, i) {
        assert !BeginsIn(pieces, sep, 0, i);
      }
    }
  }

  /** For a separator of one character that is so whenever no piece contains it. */
  lemma SingleCharacter(pieces: seq<string>, c: char)
    requires pieces != []
    ensures IsSplit(Join(pieces, [c]), [c], pieces) <==> forall p :: p in pieces ==> c !in p
  {
    SplitOfJoinIff(Join(pieces, [c]), 0, pieces, [c]);
    forall k: nat, i: nat
      ensures BeginsIn(pieces, [c], k, i) <==> k < |pieces| && i < |pieces[k]| && pieces[k][i] == c {
      if k < |pieces| && i < |pieces[k]| {
        var q := if k < |pieces| - 1 then pieces[k] + [c] else pieces[k];
        assert q[i] == pieces[k][i] && q[i..i + 1] == [q[i]];
      }
    }
    if Clear(pieces, [c]) {
      forall k, i | 0 <= k < |pieces| && 0 <= i < |pieces[k]| ensures pieces[k][i] != c {
        assert !BeginsIn(pieces, [c], k, i);
      }
    } else {
      var k: nat, i: nat :| BeginsIn(pieces, [c], k, i);
      assert pieces[k] in pieces && c in pieces[k];
    }
  }

  /** The loop does not end for an empty separator in a non-empty string. */
  method Split(s: string, sep: string) returns (result: seq<string>)
    requires sep != "" || s == ""
    ensures sep != "" ==> IsSplit(s, sep, result)
    ensures sep == "" ==> result == [""]
  {
    result := [];
    var start, i := 0, 0;
    Begin(s, sep);
    while i < |s|
      invariant 0 <= start <= |s| && start <= i && i <= |s|
      invariant forall j: nat :: start <= j < i ==> !Match(s, sep, j)
      invariant Continues(s, sep, result, start)
      invariant s == "" ==> result == []
    {
      if Match(s, sep, i) {
        CutHere(s, sep, start, i, result);
        result := result + [s[start..i]];
        start := i + |sep|;
        i := i + |sep| - 1;
      }
      i := i + 1;
    }
    if sep != "" { Finish(s, sep, start, result); }
    result := result + [s[start..]];
  }

  /** done are the pieces before start: they split s together with those that come after. */
  ghost predicate Continues(s: string, sep: string, done: seq<string>, start: nat) {
    forall last {:trigger IsSplit(s, sep, done + last)} :: IsSplitFrom(s, sep, start, last)
      ==> IsSplit(s, sep, done + last)
  }

  lemma Begin(s: string, sep: string)
    ensures Continues(s, sep, [], 0)
  {
    forall last | IsSplit(s, sep, last) ensures IsSplit(s, sep, [] + last) { assert [] + last == last; }
  }

  lemma Finish(s: string, sep: string, start: nat, done: seq<string>)
    requires sep != "" && start <= |s| && Continues(s, sep, done, start)
    requires forall j: nat :: start <= j < |s| ==> !Match(s, sep, j)
    ensures IsSplit(s, sep, done + [s[start..]])
  {
  }

  lemma CutHere(s: string, sep: string, start: nat, i: nat, done: seq<string>)
    requires FirstMatch(s, sep, start, i) && Continues(s, sep, done, start)
    ensures Continues(s, sep, done + [s[start..i]], i + |sep|)
  {
    forall last | IsSplitFrom(s, sep, i + |sep|, last) ensures IsSplit(s, sep, done + [s[start..i]] + last) {
      var here := [s[start..i]] + last;
      assert here[1..] == last && |here[0]| == i - start;
      assert IsSplitFrom(s, sep, start, here);
      assert IsSplit(s, sep, done + here);
      assert done + [s[start..i]] + last == done + here;
    }
  }

  // ---- Trimming ----

  predicate Space(c: char) {
    c == ' ' || c == '\t' || c == '\n'
  }

  predicate Spaces(s: string) {
    forall c :: c in s ==> Space(c)
  }

  /** t is s[i..j] with only spaces before and after, and no space at either end. */
  predicate TrimAt(s: string, t: string, i: nat, j: nat) {
    && i <= j <= |s| && t == s[i..j] && Spaces(s[..i]) && Spaces(s[j..])
    && (t != "" ==> !Space(t[0]) && !Space(t[|t| - 1]))
  }

  ghost predicate IsTrim(s: string, t: string) {
    exists i, j :: TrimAt(s, t, i, j)
  }

  lemma TrimUnique(s: string, t: string, u: string)
    requires IsTrim(s, t) && IsTrim(s, u)
    ensures t == u
  {
  }

  /** t is what s has from i to j; around it are blanks, tabs and line feeds only, and at its ends none. */
  ghost predicate Stripped(s: string, t: string, i: nat, j: nat) {
    && i <= j <= |s| && |t| == j - i && (forall k :: i <= k < j ==> t[k - i] == s[k])
    && (forall k :: 0 <= k < |s| && (k < i || j <= k) ==> s[k] as int in {9, 10, 32})
    && (i < j ==> s[i] as int !in {9, 10, 32} && s[j - 1] as int !in {9, 10, 32})
  }

  lemma StrippedIff(s: string, t: string, i: nat, j: nat)
    ensures TrimAt(s, t, i, j) <==> Stripped(s, t, i, j)
  {
    if TrimAt(s, t, i, j) {
      forall k | 0 <= k < i ensures Space(s[k]) { assert s[..i][k] in s[..i]; }
      forall k | j <= k < |s| ensures Space(s[k]) { assert s[j..][k - j] in s[j..]; }
    }
    if Stripped(s, t, i, j) {
      assert t == s[i..j];
      forall c | c in s[..i]
        ensures Space(c) { var k :| 0 <= k < i && s[..i][k] == c; assert s[k] as int in {9, 10, 32}; }
      forall c | c in s[j..]
        ensures Space(c) { var k :| 0 <= k < |s| - j && s[j..][k] == c; assert s[j + k] as int in {9, 10, 32}; }
    }
  }

  /** Trimming takes away the blanks, tabs and line feeds at both ends, all of them and nothing else. */
  lemma TrimIff(s: string, t: string)
    ensures IsTrim(s, t) <==> exists i, j :: Stripped(s, t, i, j)
  {
    if i: nat, j: nat :| TrimAt(s, t, i, j) { StrippedIff(s, t, i, j); }
    if i: nat, j: nat :| Stripped(s, t, i, j) { StrippedIff(s, t, i, j); }
  }

  method Trim(s: string) returns (t: string)
    ensures IsTrim(s, t)
  {
    var start, end := 0, |s|;
    while start < end && Space(s[start])
      invariant 0 <= start <= end == |s| && Spaces(s[..start])
    {
      start := start + 1;
    }
    while end > start && Space(s[end - 1])
      invariant start <= end <= |s| && Spaces(s[..start]) && Spaces(s[end..])
      invariant start < end ==> !Space(s[start])
    {
      end := end - 1;
    }
    t := s[start..end];
    assert TrimAt(s, t, start, end);
  }

  function NonEmpty(list: seq<string>): seq<string> {
    if list == [] then []
    else NonEmpty(list[..|list| - 1]) + if list[|list| - 1] != "" then [list[|list| - 1]] else []
  }

  /** places lists, in ascending order, where the non-empty pieces are, and these are the result. */
  ghost predicate Selects(list: seq<string>, result: seq<string>, places: seq<nat>) {
    && |places| == |result|
    && (forall m :: 0 <= m < |places| ==> places[m] < |list| && list[places[m]] == result[m])
    && (forall m, n :: 0 <= m < n < |places| ==> places[m] < places[n])
    && (forall k: nat :: k < |list| ==> (k in places <==> list[k] != ""))
  }

  /** The non-empty pieces are kept in order, each once, and no other. */
  lemma {:induction false} NonEmptySelects(list: seq<string>) returns (places: seq<nat>)
    ensures Selects(list, NonEmpty(list), places)
  {
    if list == [] {
      places := [];
    } else {
      var last := |list| - 1;
      places := NonEmptySelects(list[..last]);
      SelectLast(list[..last], NonEmpty(list[..last]), places, list[last]);
      assert list == list[..last] + [list[last]];
      if list[last] != "" { places := places + [last]; }
    }
  }

  lemma SelectLast(list: seq<string>, result: seq<string>, places: seq<nat>, piece: string)
    requires Selects(list, result, places)
    ensures piece == "" ==> Selects(list + [piece], result, places)
    ensures piece != "" ==> Selects(list + [piece], result + [piece], places + [|list|])
  {
    var all, more := list + [piece], places + [|list|];
    forall k: nat | k < |all| ensures k in more <==> k in places || k == |list| { }
    assert |list| !in places;
  }

  ghost predicate Trims(parts: seq<string>, trimmed: seq<string>) {
    |trimmed| == |parts| && forall k :: 0 <= k < |parts| ==> IsTrim(parts[k], trimmed[k])
  }

  /** The trimmed fields in order, without the empty ones. */
  ghost predicate IsSplitAndTrim(s: string, sep: string, result: seq<string>) {
    exists parts, trimmed :: IsSplit(s, sep, parts) && Trims(parts, trimmed) && result == NonEmpty(trimmed)
  }

  /** What the result is made of: the trimmed fields that are not empty, in order. */
  lemma ResultSelects(s: string, sep: string, result: seq<string>)
    returns (parts: seq<string>, trimmed: seq<string>, places: seq<nat>)
    requires IsSplitAndTrim(s, sep, result)
    ensures IsSplit(s, sep, parts) && Trims(parts, trimmed) && Selects(trimmed, result, places)
  {
    parts, trimmed :| IsSplit(s, sep, parts) && Trims(parts, trimmed) && result == NonEmpty(trimmed);
    places := NonEmptySelects(trimmed);
  }

  /** There is only one such list. */
  lemma SplitAndTrimUnique(s: string, sep: string, p: seq<string>, q: seq<string>)
    requires IsSplitAndTrim(s, sep, p) && IsSplitAndTrim(s, sep, q)
    ensures p == q
  {
    var parts, trimmed :| IsSplit(s, sep, parts) && Trims(parts, trimmed) && p == NonEmpty(trimmed);
    var parts', trimmed' :| IsSplit(s, sep, parts') && Trims(parts', trimmed') && q == NonEmpty(trimmed');
    SplitUnique(s, sep, 0, parts, parts');
    forall k | 0 <= k < |parts| ensures trimmed[k] == trimmed'[k] {
      TrimUnique(parts[k], trimmed[k], trimmed'[k]);
    }
    assert trimmed == trimmed';
  }

  method SplitAndTrim(s: string, sep: string) returns (result: seq<string>)
    requires sep != "" || s == ""
    ensures sep != "" ==> IsSplitAndTrim(s, sep, result)
    ensures sep == "" ==> result == []
  {
    var parts := Split(s, sep);
    ghost var trimmed := [];
    result := [];
    for i := 0 to |parts|
      invariant Trims(parts[..i], trimmed)
      invariant result == NonEmpty(trimmed)
    {
      var t := Trim(parts[i]);
      ghost var before := trimmed;
      trimmed := trimmed + [t];
      assert trimmed[..i] == before;
      if t != "" {
        result := result + [t];
      }
    }
    assert parts[..|parts|] == parts;
    if sep == "" {
      assert TrimAt("", "", 0, 0);
      TrimUnique("", "", trimmed[0]);
    }
  }
}
