/** Text as the store folds and trims it: typedname.Matching, and the trimming and comparison the
    access package does before it stores or matches a name, of ASCII letters and spaces; and text cut,
    joined and split at separators. */
module Text {
  import opened Common

  function LowerChar(c: char): char {
    if 'A' <= c <= 'Z' then (c as int + 32) as char else c
  }

  function Lower(s: string): (r: string)
    ensures |r| == |s|
    ensures forall i :: 0 <= i < |s| ==> r[i] == LowerChar(s[i])
  {
    seq(|s|, i requires 0 <= i < |s| => LowerChar(s[i]))
  }

  predicate Space(c: char) {
    c == ' ' || '\t' <= c <= '\r'
  }

  function TrimLeft(s: string): (r: string)
    ensures |r| <= |s| && r == s[|s| - |r|..]
    ensures r == [] || !Space(r[0])
    ensures s != [] && !Space(s[0]) ==> r == s
  {
    if s != [] && Space(s[0]) then TrimLeft(s[1..]) else s
  }

  function TrimRight(s: string): (r: string)
    ensures |r| <= |s| && r == s[..|r|]
    ensures r == [] || !Space(r[|r| - 1])
    ensures s != [] && !Space(s[|s| - 1]) ==> r == s
  {
    if s != [] && Space(s[|s| - 1]) then TrimRight(s[..|s| - 1]) else s
  }

  function Trim(s: string): string {
    TrimRight(TrimLeft(s))
  }

  predicate Trimmed(s: string) {
    s == [] || (!Space(s[0]) && !Space(s[|s| - 1]))
  }

  lemma TrimTrims(s: string)
    ensures Trimmed(Trim(s))
    ensures Trimmed(s) ==> Trim(s) == s
  {
    var left := TrimLeft(s);
    var both := TrimRight(left);
    if both != [] { assert both[0] == left[0]; }
  }

  /** How a name somebody typed is stored and matched. */
  function Folded(name: string): string {
    Lower(Trim(name))
  }

  lemma LowerKeepsSpaces(c: char)
    ensures Space(LowerChar(c)) <==> Space(c)
  {}

  /** Folding is settled by one pass: a stored name matches itself however often it is folded. */
  lemma FoldedTwice(name: string)
    ensures Folded(Folded(name)) == Folded(name)
    ensures Trimmed(Folded(name))
  {
    hide Trim;
    TrimTrims(name);
    var trimmed := Trim(name);
    var folded := Lower(trimmed);
    if folded != [] {
      LowerKeepsSpaces(trimmed[0]);
      LowerKeepsSpaces(trimmed[|trimmed| - 1]);
    }
    TrimTrims(folded);
    assert Lower(folded) == folded;
  }

  /** Names compared without regard to capitals. */
  predicate EqualFold(a: string, b: string) {
    Lower(a) == Lower(b)
  }

  /** Nothing but blanks. */
  ghost predicate Blank(s: string) {
    forall c :: c in s ==> c == ' ' || '\t' <= c <= '\r'
  }

  lemma BlankAnd(c: char, s: string)
    requires Space(c) && Blank(s)
    ensures Blank([c] + s) && Blank(s + [c])
  {}

  lemma PartIsBlank(s: string, i: nat, j: nat)
    requires Blank(s) && i <= j <= |s|
    ensures Blank(s[i..j])
  {
    var part := s[i..j];
    forall c | c in part ensures c in s {
      var k :| 0 <= k < |part| && part[k] == c;
      assert s[i + k] == c;
    }
  }

  lemma BlankRest(s: string)
    requires Blank(s) && s != []
    ensures Blank(s[1..]) && Blank(s[..|s| - 1]) && Space(s[0]) && Space(s[|s| - 1])
  {
    assert s[0] in s && s[|s| - 1] in s;
    PartIsBlank(s, 1, |s|);
    PartIsBlank(s, 0, |s| - 1);
    assert s[1..|s|] == s[1..] && s[0..|s| - 1] == s[..|s| - 1];
  }

  lemma NothingTrimmed(s: string)
    ensures Blank([])
    ensures s == [] || !Space(s[0]) ==> s == [] + TrimLeft(s)
    ensures s == [] || !Space(s[|s| - 1]) ==> s == TrimRight(s) + []
  {}

  lemma TrimLeftOf(c: char, s: string)
    requires Space(c)
    ensures TrimLeft([c] + s) == TrimLeft(s)
  {
    assert ([c] + s)[1..] == s;
  }

  lemma TrimRightOf(c: char, s: string)
    requires Space(c)
    ensures TrimRight(s + [c]) == TrimRight(s)
  {
    assert (s + [c])[..|s|] == s;
  }

  lemma LeftStep(c: char, s: string, left: string)
    requires Space(c) && Blank(left) && s == left + TrimLeft(s)
    ensures [c] + s == [c] + left + TrimLeft([c] + s) && Blank([c] + left)
  {
    TrimLeftOf(c, s);
    BlankAnd(c, left);
    hide TrimLeft, Space, Blank;
    JoinsEitherWay([c], left, TrimLeft(s));
  }

  lemma RightStep(s: string, c: char, right: string)
    requires Space(c) && Blank(right) && s == TrimRight(s) + right
    ensures s + [c] == TrimRight(s + [c]) + (right + [c]) && Blank(right + [c])
  {
    TrimRightOf(c, s);
    BlankAnd(c, right);
    hide TrimRight, Space, Blank;
    JoinsEitherWay(TrimRight(s), right, [c]);
  }

  lemma FirstAndRest(s: string)
    requires s != []
    ensures s == [s[0]] + s[1..] && s == s[..|s| - 1] + [s[|s| - 1]]
  {}

  lemma {:induction false} LeftIsBlank(s: string) returns (left: string)
    ensures s == left + TrimLeft(s) && Blank(left)
  {
    hide TrimLeft, Space, Blank;
    NothingTrimmed(s);
    if s == [] || !Space(s[0]) {
      left := [];
    } else {
      var rest := LeftIsBlank(s[1..]);
      LeftStep(s[0], s[1..], rest);
      FirstAndRest(s);
      left := [s[0]] + rest;
    }
  }

  lemma {:induction false} RightIsBlank(s: string) returns (right: string)
    ensures s == TrimRight(s) + right && Blank(right)
  {
    hide TrimRight, Space, Blank;
    NothingTrimmed(s);
    if s == [] || !Space(s[|s| - 1]) {
      right := [];
    } else {
      var rest := RightIsBlank(s[..|s| - 1]);
      RightStep(s[..|s| - 1], s[|s| - 1], rest);
      FirstAndRest(s);
      right := rest + [s[|s| - 1]];
    }
  }

  /** Trimming takes the blanks off both ends, all of them and nothing else. */
  lemma TrimMeans(s: string) returns (left: string, right: string)
    ensures s == left + Trim(s) + right && Blank(left) && Blank(right)
    ensures Trim(s) != [] ==> !Blank([Trim(s)[0]]) && !Blank([Trim(s)[|Trim(s)| - 1]])
  {
    left := LeftIsBlank(s);
    right := RightIsBlank(TrimLeft(s));
    TrimTrims(s);
    assert Trim(s) == TrimRight(TrimLeft(s));
    hide TrimLeft, TrimRight, Space, Blank, Trim;
    JoinsEitherWay(left, Trim(s), right);
    if Trim(s) != [] { EndsAreNoSpace(Trim(s)); }
  }

  lemma JoinsEitherWay(a: string, b: string, c: string)
    ensures a + (b + c) == a + b + c
  {}

  lemma EndsAreNoSpace(s: string)
    requires s != [] && Trimmed(s)
    ensures !Blank([s[0]]) && !Blank([s[|s| - 1]])
  {
    assert s[0] in [s[0]] && s[|s| - 1] in [s[|s| - 1]];
  }

  lemma {:induction false} TrimLeftAfter(left: string, s: string)
    requires Blank(left) && (s == [] || !Space(s[0]))
    ensures TrimLeft(left + s) == s
  {
    if left == [] {
      assert left + s == s;
    } else {
      assert left[0] in left && left == [left[0]] + left[1..];
      BlankRest(left);
      TrimLeftAfter(left[1..], s);
      TrimLeftOf(left[0], left[1..] + s);
      JoinsEitherWay([left[0]], left[1..], s);
    }
  }

  lemma {:induction false} TrimRightBefore(s: string, right: string)
    requires Blank(right) && (s == [] || !Space(s[|s| - 1]))
    ensures TrimRight(s + right) == s
  {
    if right == [] {
      assert s + right == s;
    } else {
      var n := |right| - 1;
      assert right[n] in right && right == right[..n] + [right[n]];
      BlankRest(right);
      TrimRightBefore(s, right[..n]);
      TrimRightOf(right[n], s + right[..n]);
      JoinsEitherWay(s, right[..n], [right[n]]);
    }
  }

  /** Blanks around a trimmed text are what trimming takes off it. */
  lemma TrimAround(left: string, s: string, right: string)
    requires Blank(left) && Blank(right) && Trimmed(s)
    ensures Trim(left + s + right) == s
  {
    if s == [] {
      assert left + s + right == (left + right) + [];
      assert forall c :: c in left + right <==> c in left || c in right;
      TrimLeftAfter(left + right, []);
    } else {
      JoinsEitherWay(left, s, right);
      TrimLeftAfter(left, s + right);
      TrimRightBefore(s, right);
    }
  }

  /** Two characters are one, capitals aside. */
  ghost predicate SameLetter(a: char, b: char) {
    || a == b
    || ('A' <= a <= 'Z' && b as int == a as int + 32)
    || ('A' <= b <= 'Z' && a as int == b as int + 32)
  }

  ghost predicate SameButCapitals(a: string, b: string) {
    |a| == |b| && forall i :: 0 <= i < |a| ==> SameLetter(a[i], b[i])
  }

  /** Comparing folded is comparing all but capitals. */
  lemma EqualFoldMeans(a: string, b: string)
    ensures EqualFold(a, b) <==> SameButCapitals(a, b)
  {
    if SameButCapitals(a, b) {
      assert Lower(a) == Lower(b);
    }
    if EqualFold(a, b) {
      forall i | 0 <= i < |a| ensures SameLetter(a[i], b[i]) { assert Lower(a)[i] == Lower(b)[i]; }
    }
  }

  /** A name is stored without its outer blanks and without capitals, and otherwise as typed. */
  lemma FoldedMeans(name: string)
    ensures SameButCapitals(Folded(name), Trim(name)) && NoCapitals(Folded(name))
  {
    hide Trim;
    LowerMeans(Trim(name));
  }

  ghost predicate NoCapitals(s: string) {
    forall i :: 0 <= i < |s| ==> !('A' <= s[i] <= 'Z')
  }

  lemma LowerMeans(s: string)
    ensures SameButCapitals(Lower(s), s) && NoCapitals(Lower(s))
  {}

  // ----- Cutting, joining and splitting -----

  /** Where a character first is, or past the end. */
  function IndexOf(s: string, c: char): (i: nat)
    ensures i <= |s| && c !in s[..i] && (i < |s| ==> s[i] == c)
  {
    if s == [] || s[0] == c then 0 else 1 + IndexOf(s[1..], c)
  }

  function Join(parts: seq<string>, separator: string): string {
    if parts == [] then []
    else if |parts| == 1 then parts[0]
    else parts[0] + separator + Join(parts[1..], separator)
  }

  function Split(s: string, c: char): (parts: seq<string>)
    ensures parts != []
    decreases |s|
  {
    var i := IndexOf(s, c);
    if i == |s| then [s] else [s[..i]] + Split(s[i + 1..], c)
  }

  lemma {:induction false} IndexOfFirst(a: string, c: char, b: string)
    requires c !in a
    ensures IndexOf(a + [c] + b, c) == |a|
  {
    var s := a + [c] + b;
    if a != [] {
      assert s[1..] == a[1..] + [c] + b && s[0] == a[0];
      IndexOfFirst(a[1..], c, b);
    }
  }

  lemma IndexOfNone(s: string, c: char)
    requires c !in s
    ensures IndexOf(s, c) == |s|
  {}

  lemma SplitFirst(a: string, c: char, b: string)
    requires c !in a
    ensures Split(a + [c] + b, c) == [a] + Split(b, c)
  {
    IndexOfFirst(a, c, b);
    assert (a + [c] + b)[..|a|] == a && (a + [c] + b)[|a| + 1..] == b;
  }

  lemma SplitNone(s: string, c: char)
    requires c !in s
    ensures Split(s, c) == [s]
  {
    IndexOfNone(s, c);
  }

  lemma {:induction false} SplitConcat(a: string, c: char, b: string)
    ensures Split(a + [c] + b, c) == Split(a, c) + Split(b, c)
    decreases |a|
  {
    hide Split, IndexOf;
    var i := IndexOf(a, c);
    if i == |a| {
      assert a[..i] == a;
      SplitNone(a, c);
      SplitFirst(a, c, b);
    } else {
      var first, rest := a[..i], a[i + 1..];
      assert a == first + [c] + rest && a + [c] + b == first + [c] + (rest + [c] + b);
      SplitFirst(first, c, rest);
      SplitFirst(first, c, rest + [c] + b);
      SplitConcat(rest, c, b);
    }
  }

  ghost predicate NoneHolds(parts: seq<string>, c: char) {
    forall i :: 0 <= i < |parts| ==> c !in parts[i]
  }

  lemma {:induction false} SplitUndoesJoin(parts: seq<string>, c: char)
    requires parts != [] && NoneHolds(parts, c)
    ensures Split(Join(parts, [c]), c) == parts
  {
    hide Split;
    if |parts| == 1 {
      SplitNone(parts[0], c);
    } else {
      SplitUndoesJoin(parts[1..], c);
      SplitFirst(parts[0], c, Join(parts[1..], [c]));
    }
  }

  /** What stands between the separators of all the parts, in order. */
  function Pieces(parts: seq<string>, c: char): seq<string> {
    if parts == [] then [] else Split(parts[0], c) + Pieces(parts[1..], c)
  }

  lemma {:induction false} SplitOfJoin(parts: seq<string>, c: char)
    requires parts != []
    ensures Split(Join(parts, [c]), c) == Pieces(parts, c)
  {
    hide Split;
    if |parts| == 1 {
      assert parts[1..] == [];
    } else {
      SplitOfJoin(parts[1..], c);
      SplitConcat(parts[0], c, Join(parts[1..], [c]));
    }
  }

  lemma JoinFirst(part: string, rest: seq<string>, separator: string)
    requires rest != []
    ensures Join([part] + rest, separator) == part + separator + Join(rest, separator)
  {
    assert ([part] + rest)[1..] == rest;
  }

  lemma JoinOne(part: string, separator: string)
    ensures Join([part], separator) == part
  {}

  lemma {:induction false} JoinUndoesSplit(s: string, c: char)
    ensures Join(Split(s, c), [c]) == s
    decreases |s|
  {
    hide Join, IndexOf;
    var i := IndexOf(s, c);
    if i < |s| {
      var rest := s[i + 1..];
      JoinUndoesSplit(rest, c);
      assert s == s[..i] + [c] + rest;
      JoinFirst(s[..i], Split(rest, c), [c]);
    } else {
      JoinOne(s, [c]);
    }
  }

  /** Joined texts are equal exactly when the same pieces stand between their separators. */
  lemma JoinedAlike(parts: seq<string>, other: seq<string>, c: char)
    requires parts != [] && other != []
    ensures Join(parts, [c]) == Join(other, [c]) <==> Pieces(parts, c) == Pieces(other, c)
  {
    hide Split, Join;
    SplitOfJoin(parts, c);
    SplitOfJoin(other, c);
    JoinUndoesSplit(Join(parts, [c]), c);
    JoinUndoesSplit(Join(other, [c]), c);
  }

  lemma {:induction false} PiecesOfPlain(parts: seq<string>, c: char)
    requires NoneHolds(parts, c)
    ensures Pieces(parts, c) == parts
  {
    if parts != [] {
      SplitNone(parts[0], c);
      PiecesOfPlain(parts[1..], c);
    }
  }
}
