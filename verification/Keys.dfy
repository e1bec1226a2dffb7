/** The keys of internal/analysis/key.go. SHA-256 is taken to be injective, so a digest stands here
    as the bytes it is of. */
module Keys {
  import opened Common
  import opened Layers
  import opened LayersTheorems

  const NUL: char := '\0'

  /** Every part, each ended by a zero byte. */
  function Digest(parts: seq<string>): string {
    if parts == [] then "" else parts[0] + [NUL] + Digest(parts[1..])
  }

  ghost predicate NulFree(parts: seq<string>) {
    forall p :: p in parts ==> NUL !in p
  }

  /** Everything before the first zero byte. */
  function Head(s: string): string {
    if s == "" || s[0] == NUL then "" else [s[0]] + Head(s[1..])
  }

  lemma {:induction false} HeadFacts(s: string)
    ensures |Head(s)| <= |s| && Head(s) == s[..|Head(s)|] && NUL !in Head(s)
    ensures |Head(s)| < |s| ==> s[|Head(s)|] == NUL
  {
    if s != "" && s[0] != NUL {
      HeadFacts(s[1..]);
    }
  }

  lemma {:induction false} HeadOf(p: string, rest: string)
    requires NUL !in p
    ensures Head(p + [NUL] + rest) == p
  {
    if p != "" {
      HeadOf(p[1..], rest);
      assert (p + [NUL] + rest)[1..] == p[1..] + [NUL] + rest;
    }
  }

  /** The parts read back from what a digest is of. */
  function Parts(s: string): seq<string>
    decreases |s|
  {
    HeadFacts(s);
    if |Head(s)| == |s| then [] else [Head(s)] + Parts(s[|Head(s)| + 1..])
  }

  lemma {:induction false} PartsNulFree(s: string)
    ensures NulFree(Parts(s))
    decreases |s|
  {
    HeadFacts(s);
    if |Head(s)| < |s| {
      PartsNulFree(s[|Head(s)| + 1..]);
    }
  }

  lemma {:induction false} PartsOfDigest(parts: seq<string>)
    requires NulFree(parts)
    ensures Parts(Digest(parts)) == parts
  {
    if parts != [] {
      var rest := Digest(parts[1..]);
      HeadOf(parts[0], rest);
      PartsOfDigest(parts[1..]);
      assert Digest(parts)[|parts[0]| + 1..] == rest;
    }
  }

  lemma {:induction false} DigestEndsPart(parts: seq<string>)
    ensures parts != [] ==> Digest(parts) != "" && Digest(parts)[|Digest(parts)| - 1] == NUL
  {
    if parts != [] {
      DigestEndsPart(parts[1..]);
      if parts[1..] == [] { assert Digest(parts) == parts[0] + [NUL]; }
    }
  }

  lemma {:induction false} DigestOfParts(s: string)
    requires s == "" || s[|s| - 1] == NUL
    ensures Digest(Parts(s)) == s
    decreases |s|
  {
    hide Head, Parts;
    NoParts();
    if s != "" {
      var head, rest := FirstEnd(s);
      FirstPart(head, rest);
      DigestOfParts(rest);
      assert ([head] + Parts(rest))[1..] == Parts(rest);
    }
  }

  lemma {:induction false} DigestConcat(a: seq<string>, b: seq<string>)
    ensures Digest(a + b) == Digest(a) + Digest(b)
  {
    if a == [] {
      assert a + b == b;
    } else {
      DigestConcat(a[1..], b);
      assert (a + b)[1..] == a[1..] + b;
    }
  }

  lemma FirstPart(head: string, rest: string)
    requires NUL !in head
    ensures Parts(head + [NUL] + rest) == [head] + Parts(rest)
  {
    var s := head + [NUL] + rest;
    HeadOf(head, rest);
    assert s[|head| + 1..] == rest;
  }

  lemma NoParts()
    ensures Parts("") == []
  {}

  lemma FirstEnd(s: string) returns (head: string, rest: string)
    requires s != "" && s[|s| - 1] == NUL
    ensures NUL !in head && s == head + [NUL] + rest && |rest| < |s|
    ensures rest == "" || rest[|rest| - 1] == NUL
  {
    HeadFacts(s);
    assert NUL in s;
    head, rest := Head(s), s[|Head(s)| + 1..];
  }

  lemma {:induction false} PartsConcat(s: string, t: string)
    requires s == "" || s[|s| - 1] == NUL
    ensures Parts(s + t) == Parts(s) + Parts(t)
    decreases |s|
  {
    hide Parts, Head;
    if s == "" {
      assert s + t == t;
      NoParts();
    } else {
      var head, rest := FirstEnd(s);
      assert s + t == head + [NUL] + (rest + t);
      FirstPart(head, rest);
      FirstPart(head, rest + t);
      PartsConcat(rest, t);
    }
  }

  /** What one part reads back as: itself, or more than one part where it holds a zero byte. */
  function Pieces(x: string): seq<string> {
    Parts(x + [NUL])
  }

  lemma PiecesFacts(x: string)
    ensures Digest(Pieces(x)) == x + [NUL] && |Pieces(x)| >= 1
    ensures NUL !in x ==> Pieces(x) == [x]
    ensures NUL in x ==> |Pieces(x)| >= 2
  {
    DigestOfParts(x + [NUL]);
    if NUL !in x {
      PartsOfDigest([x]);
      assert Digest([x]) == x + [NUL];
    } else if |Pieces(x)| == 1 {
      var only := Pieces(x)[0];
      assert Pieces(x) == [only] && Digest([only]) == only + [NUL];
      assert (only + [NUL])[..|only|] == only && (x + [NUL])[..|x|] == x;
      PartsNulFree(x + [NUL]);
      assert false;
    }
  }

  lemma PartsReadBack(before: seq<string>, x: string, after: seq<string>)
    requires NulFree(before) && NulFree(after)
    ensures Parts(Digest(before + [x] + after)) == before + Pieces(x) + after
  {
    DigestConcat(before + [x], after);
    DigestConcat(before, [x]);
    assert Digest([x]) == x + [NUL];
    DigestEndsPart(before);
    PartsConcat(Digest(before), x + [NUL]);
    PartsConcat(Digest(before) + (x + [NUL]), Digest(after));
    PartsOfDigest(before);
    PartsOfDigest(after);
  }

  /** Two lists of one length that share a digest are the same list, as long as a zero byte appears in
      one of the parts alone. */
  lemma DigestEqual(before: seq<string>, x: string, after: seq<string>, before': seq<string>, x': string, after': seq<string>)
    requires NulFree(before) && NulFree(after) && NulFree(before') && NulFree(after')
    requires |before| == |before'| && |after| == |after'|
    ensures Digest(before + [x] + after) == Digest(before' + [x'] + after') ==> before == before' && x == x' && after == after'
  {
    hide Digest, Parts, Pieces, NulFree;
    if Digest(before + [x] + after) == Digest(before' + [x'] + after') {
      PartsReadBack(before, x, after);
      PartsReadBack(before', x', after');
      SameThirds(before, Pieces(x), after, before', Pieces(x'), after');
      PiecesFacts(x);
      PiecesFacts(x');
      assert (x + [NUL])[..|x|] == x && (x' + [NUL])[..|x'|] == x';
    }
  }

  lemma SameThirds(a: seq<string>, b: seq<string>, c: seq<string>, a': seq<string>, b': seq<string>, c': seq<string>)
    requires a + b + c == a' + b' + c' && |a| == |a'| && |c| == |c'|
    ensures a == a' && b == b' && c == c'
  {
    var all, n := a + b + c, |a| + |b|;
    assert |b| == |b'|;
    assert all[..|a|] == a && all[|a|..n] == b && all[n..] == c;
    assert all[..|a|] == a' && all[|a|..n] == b' && all[n..] == c';
  }

  lemma {:induction false} PartsNumber(parts: seq<string>)
    ensures |Parts(Digest(parts))| >= |parts|
    ensures !NulFree(parts) ==> |Parts(Digest(parts))| > |parts|
  {
    if parts != [] {
      PartsNumber(parts[1..]);
      PartsConcat(parts[0] + [NUL], Digest(parts[1..]));
      PiecesFacts(parts[0]);
      assert forall p :: p in parts <==> p == parts[0] || p in parts[1..];
    }
  }

  /** A list of parts shares its digest with another of its own length exactly when it has two parts
      or more and one of them holds a zero byte. */
  lemma DigestShared(parts: seq<string>)
    ensures |parts| >= 2 && !NulFree(parts)
      <==> exists other :: |other| == |parts| && other != parts && Digest(other) == Digest(parts)
  {
    if |parts| >= 2 && !NulFree(parts) {
      NulMakesAnother(parts);
    } else {
      forall other | |other| == |parts| && Digest(other) == Digest(parts) ensures other == parts {
        if NulFree(parts) {
          PartsOfDigest(parts);
          PartsNumber(other);
          PartsOfDigest(other);
        } else {
          DigestEqual([], parts[0], [], [], other[0], []);
          assert parts == [] + [parts[0]] + [] && other == [] + [other[0]] + [];
        }
      }
    }
  }

  lemma NulMakesAnother(parts: seq<string>)
    requires |parts| >= 2 && !NulFree(parts)
    ensures exists other :: |other| == |parts| && other != parts && Digest(other) == Digest(parts)
  {
    hide Digest;
    var p :| p in parts && NUL in p;
    var i :| 0 <= i < |parts| && parts[i] == p;
    if i + 1 < |parts| {
      TwoAt(parts, i);
      NulMovesOn(parts[..i], p, parts[i + 1], parts[i + 2..]);
    } else {
      TwoAt(parts, i - 1);
      NulMovesBack(parts[..i - 1], parts[i - 1], p, parts[i + 1..]);
    }
  }

  lemma TwoAt(parts: seq<string>, i: nat)
    requires i + 1 < |parts|
    ensures parts == parts[..i] + [parts[i], parts[i + 1]] + parts[i + 2..]
  {}

  lemma NulMovesOn(before: seq<string>, p: string, z: string, after: seq<string>)
    requires NUL in p
    ensures var parts := before + [p, z] + after;
            exists other :: |other| == |parts| && other != parts && Digest(other) == Digest(parts)
  {
    hide Digest;
    var x, y := AroundNul(p);
    NulMovesParts(before, x, y, z, after);
    var parts, other := before + [p, z] + after, before + [x, y + [NUL] + z] + after;
    assert |parts[|before|]| > |other[|before|]|;
  }

  lemma NulMovesBack(before: seq<string>, z: string, p: string, after: seq<string>)
    requires NUL in p
    ensures var parts := before + [z, p] + after;
            exists other :: |other| == |parts| && other != parts && Digest(other) == Digest(parts)
  {
    hide Digest;
    var x, y := AroundNul(p);
    NulMovesParts(before, z, x, y, after);
    var parts, other := before + [z, p] + after, before + [z + [NUL] + x, y] + after;
    assert |parts[|before|]| < |other[|before|]|;
  }

  lemma AroundNul(p: string) returns (x: string, y: string)
    requires NUL in p
    ensures p == x + [NUL] + y
  {
    var k :| 0 <= k < |p| && p[k] == NUL;
    x, y := p[..k], p[k + 1..];
  }

  /** Where a part holding a zero byte is followed by another, the byte can move between them. */
  lemma NulMovesParts(before: seq<string>, x: string, y: string, z: string, after: seq<string>)
    ensures Digest(before + [x + [NUL] + y, z] + after) == Digest(before + [x, y + [NUL] + z] + after)
  {
    hide Digest;
    var one, two := [x + [NUL] + y, z], [x, y + [NUL] + z];
    DigestConcat(before + one, after);
    DigestConcat(before, one);
    DigestConcat(before + two, after);
    DigestConcat(before, two);
    DigestOfTwo(x + [NUL] + y, z);
    DigestOfTwo(x, y + [NUL] + z);
    assert x + [NUL] + y + [NUL] + z + [NUL] == x + [NUL] + (y + [NUL] + z) + [NUL];
  }

  lemma DigestOfTwo(x: string, y: string)
    ensures Digest([x, y]) == x + [NUL] + y + [NUL]
  {
    assert [x, y][1..] == [y] && Digest([y]) == y + [NUL];
  }

  // ----- A message without its digits -----

  /** Which characters are digits and which are spaces, as the language's tables say. */
  datatype Alphabet = Alphabet(digit: char -> bool, space: char -> bool) {
    predicate Valid() {
      space(' ') && !digit(' ')
    }

    predicate Kept(c: char) {
      !digit(c) && !space(c)
    }
  }

  datatype Scan = Scan(text: string, space: bool)

  function Step(a: Alphabet, s: Scan, c: char): Scan {
    if a.digit(c) then s
    else if a.space(c) then s.(space := true)
    else Scan(s.text + (if s.space && |s.text| > 0 then " " else "") + [c], false)
  }

  function Scanned(a: Alphabet, message: string): Scan {
    if message == "" then Scan("", false)
    else Step(a, Scanned(a, message[..|message| - 1]), message[|message| - 1])
  }

  function Stripped(a: Alphabet, message: string): string {
    Scanned(a, message).text
  }

  method WithoutDigits(a: Alphabet, message: string) returns (text: string)
    ensures text == Stripped(a, message)
  {
    text := "";
    var space := false;
    for i := 0 to |message|
      invariant Scan(text, space) == Scanned(a, message[..i])
    {
      var c := message[i];
      assert message[..i + 1][..i] == message[..i];
      if a.digit(c) {
        continue;
      }
      if a.space(c) {
        space := true;
        continue;
      }
      if space && |text| > 0 {
        text := text + " ";
      }
      space := false;
      text := text + [c];
    }
    assert message[..|message|] == message;
  }

  /** No digits, and single spaces only between words. */
  ghost predicate Clean(a: Alphabet, s: string) {
    && (forall i :: 0 <= i < |s| ==> a.Kept(s[i]) || s[i] == ' ')
    && (s != "" ==> a.Kept(s[0]) && a.Kept(s[|s| - 1]))
    && (forall i :: 0 <= i < |s| - 1 ==> a.Kept(s[i]) || a.Kept(s[i + 1]))
  }

  lemma {:induction false} StrippedIsClean(a: Alphabet, message: string)
    requires a.Valid()
    ensures Clean(a, Stripped(a, message))
  {
    if message != "" {
      StrippedIsClean(a, message[..|message| - 1]);
    }
  }

  lemma {:induction false} CleanIsStripped(a: Alphabet, s: string, n: nat)
    requires a.Valid() && Clean(a, s) && n <= |s|
    ensures Scanned(a, s[..n]) == if n > 0 && s[n - 1] == ' ' then Scan(s[..n - 1], true) else Scan(s[..n], false)
  {
    if n > 0 {
      CleanIsStripped(a, s, n - 1);
      assert s[..n][..n - 1] == s[..n - 1];
      assert s[..n] == s[..n - 1] + [s[n - 1]];
      if n > 1 {
        assert s[..n - 1] == s[..n - 2] + [s[n - 2]];
      }
    }
  }

  /** Stripping a stripped message changes nothing. */
  lemma StrippedTwice(a: Alphabet, message: string)
    requires a.Valid()
    ensures Stripped(a, Stripped(a, message)) == Stripped(a, message)
  {
    var s := Stripped(a, message);
    StrippedIsClean(a, message);
    CleanIsStripped(a, s, |s|);
    assert s[..|s|] == s;
  }

  lemma {:induction false} ScannedPrefix(a: Alphabet, before: string, other: string, after: string)
    requires Scanned(a, before) == Scanned(a, other)
    ensures Scanned(a, before + after) == Scanned(a, other + after)
  {
    if after == "" {
      assert before + after == before && other + after == other;
    } else {
      var n := |after| - 1;
      ScannedPrefix(a, before, other, after[..n]);
      assert (before + after)[..|before + after| - 1] == before + after[..n];
      assert (other + after)[..|other + after| - 1] == other + after[..n];
    }
  }

  /** A number quoted in a message may change in any way. */
  lemma {:induction false} DigitsDoNotMatter(a: Alphabet, before: string, number: string, after: string)
    requires forall c :: c in number ==> a.digit(c)
    ensures Stripped(a, before + number + after) == Stripped(a, before + after)
  {
    if number != "" {
      var n := |number| - 1;
      assert (before + number)[..|before + number| - 1] == before + number[..n];
      assert Scanned(a, before + number) == Scanned(a, before + number[..n]);
      ScannedPrefix(a, before + number, before + number[..n], after);
      DigitsDoNotMatter(a, before, number[..n], after);
    } else {
      assert before + number == before;
    }
  }

  // ----- The keys of a result -----

  function Decimal(n: nat): string {
    if n < 10 then [("0123456789")[n]] else Decimal(n / 10) + [("0123456789")[n % 10]]
  }

  function Itoa(n: int): string {
    if n < 0 then "-" + Decimal(-n) else Decimal(n)
  }

  /** A result as placed in the checkout, with the fingerprint preferred for it and the functions
      its path passes through. */
  datatype Placed = Placed(path: string, startLine: int, message: string, fn: string,
                           scheme: string, mark: string, chain: string)

  function Where(p: Placed): string {
    if p.mark == "" then "line " + Itoa(p.startLine) else "fingerprint " + p.scheme + " " + p.mark
  }

  function KeyOf(a: Alphabet, rule: string, p: Placed): Keyed {
    var message := Stripped(a, p.message);
    Keyed(Digest([rule, p.path, Where(p), message, p.fn, p.chain]),
          Digest([rule, p.path, message, p.fn, p.chain]),
          if p.fn != "" then Digest([rule, p.path, message, "function " + p.fn]) else "",
          Digest([rule, p.path, message]),
          p.startLine)
  }

  /** Nothing of a result but its path may hold a zero byte: the reader of documents takes every one
      out of the text it reads (internal/docread/json.go:185-188), and a path is decoded after that. */
  ghost predicate Plain(rule: string, p: Placed) {
    NulFree([rule, p.message, p.fn, p.scheme, p.mark, p.chain])
  }

  lemma PlainParts(a: Alphabet, rule: string, p: Placed)
    requires Plain(rule, p)
    ensures NulFree([rule]) && NulFree([Where(p), Stripped(a, p.message), p.fn, p.chain])
    ensures NulFree([Stripped(a, p.message), p.fn, p.chain]) && NulFree([Stripped(a, p.message)])
    ensures NulFree([Stripped(a, p.message), "function " + p.fn])
  {
    var whole := [rule, p.message, p.fn, p.scheme, p.mark, p.chain];
    assert forall i :: 0 <= i < 6 ==> whole[i] in whole;
    assert NUL !in whole[0] && NUL !in whole[1] && NUL !in whole[2] && NUL !in whole[3] && NUL !in whole[4] && NUL !in whole[5];
    StrippedFrom(a, p.message);
    ItoaIsPlain(p.startLine);
  }

  lemma {:induction false} StrippedFrom(a: Alphabet, message: string)
    ensures forall c :: c in Stripped(a, message) ==> c in message || c == ' '
  {
    if message != "" {
      var n := |message| - 1;
      StrippedFrom(a, message[..n]);
      assert message == message[..n] + [message[n]];
    }
  }

  lemma {:induction false} DecimalIsPlain(n: nat)
    ensures NUL !in Decimal(n)
  {
    if n >= 10 { DecimalIsPlain(n / 10); }
  }

  lemma ItoaIsPlain(n: int)
    ensures NUL !in Itoa(n)
  {
    DecimalIsPlain(if n < 0 then -n else n);
  }

  /** A key is never empty, and equal keys of any one layer are of one rule, path and message; equal
      whole keys are of one function, call chain and fingerprint or line too. */
  lemma EqualKeys(a: Alphabet, rule: string, p: Placed, rule': string, p': Placed, on: Layer)
    requires Plain(rule, p) && Plain(rule', p')
    ensures var k, k' := KeyOf(a, rule, p), KeyOf(a, rule', p');
            && k.key != "" && k.lineKey != "" && k.unprintedKey != ""
            && (KeyOfResult(k, on) == KeyOfResult(k', on) != "" ==>
                  k.lineKey == k'.lineKey && rule == rule' && p.path == p'.path &&
                  Stripped(a, p.message) == Stripped(a, p'.message))
            && (k.key == k'.key ==> Where(p) == Where(p') && p.fn == p'.fn && p.chain == p'.chain)
  {
    hide Digest, NulFree, Where, Stripped;
    var m, m' := Stripped(a, p.message), Stripped(a, p'.message);
    var whole, whole' := [Where(p), m, p.fn, p.chain], [Where(p'), m', p'.fn, p'.chain];
    PlainParts(a, rule, p);
    PlainParts(a, rule', p');
    PathsApart(rule, p.path, whole, rule', p'.path, whole');
    PathsApart(rule, p.path, whole[1..], rule', p'.path, whole'[1..]);
    PathsApart(rule, p.path, [m, "function " + p.fn], rule', p'.path, [m', "function " + p'.fn]);
    PathsApart(rule, p.path, [m], rule', p'.path, [m']);
    KeyLists(a, rule, p);
    KeyLists(a, rule', p');
  }

  /** Equal exactly when: whole keys of results of one rule, path, message, function and chain, and of
      one fingerprint, or without any of one line; the key without fingerprints where they agree on all
      but those; the function's where both name one and agree on rule, path, message and it; and the line
      key where they agree on rule, path and message. Messages are compared without digits. */
  lemma KeysEqualExactlyWhen(a: Alphabet, rule: string, p: Placed, rule': string, p': Placed)
    requires Plain(rule, p) && Plain(rule', p')
    ensures var k, k', same := KeyOf(a, rule, p), KeyOf(a, rule', p'),
                               rule == rule' && p.path == p'.path && Stripped(a, p.message) == Stripped(a, p'.message);
            && (k.lineKey == k'.lineKey <==> same)
            && (p.fn != "" && p'.fn != "" ==> (k.functionKey == k'.functionKey <==> same && p.fn == p'.fn))
            && (k.functionKey == "" <==> p.fn == "")
            && (k.unprintedKey == k'.unprintedKey <==> same && p.fn == p'.fn && p.chain == p'.chain)
            && (k.key == k'.key <==>
                  same && p.fn == p'.fn && p.chain == p'.chain
                  && (p.mark == "" <==> p'.mark == "")
                  && (p.mark == "" ==> p.startLine == p'.startLine)
                  && (p.mark != "" ==> p.scheme + " " + p.mark == p'.scheme + " " + p'.mark))
            && k.startLine == p.startLine
  {
    hide Digest, NulFree, Where, Stripped;
    var m, m' := Stripped(a, p.message), Stripped(a, p'.message);
    var whole, whole' := [Where(p), m, p.fn, p.chain], [Where(p'), m', p'.fn, p'.chain];
    PlainParts(a, rule, p);
    PlainParts(a, rule', p');
    PathsApart(rule, p.path, whole, rule', p'.path, whole');
    PathsApart(rule, p.path, whole[1..], rule', p'.path, whole'[1..]);
    PathsApart(rule, p.path, [m, "function " + p.fn], rule', p'.path, [m', "function " + p'.fn]);
    PathsApart(rule, p.path, [m], rule', p'.path, [m']);
    KeyLists(a, rule, p);
    KeyLists(a, rule', p');
    WhereTells(p, p');
    assert "function " + p.fn == "function " + p'.fn <==> p.fn == p'.fn by {
      assert ("function " + p.fn)[9..] == p.fn && ("function " + p'.fn)[9..] == p'.fn;
    }
    FunctionKeys(a, rule, p);
    FunctionKeys(a, rule', p');
  }

  lemma FunctionKeys(a: Alphabet, rule: string, p: Placed)
    ensures KeyOf(a, rule, p).functionKey ==
      if p.fn != "" then Digest([rule, p.path] + [Stripped(a, p.message), "function " + p.fn]) else ""
    ensures Digest([rule, p.path] + [Stripped(a, p.message), "function " + p.fn]) != ""
  {
    hide Stripped;
    KeyLists(a, rule, p);
    assert [rule, p.path] + [Stripped(a, p.message), "function " + p.fn] == [rule, p.path, Stripped(a, p.message), "function " + p.fn];
    DigestEndsPart([rule, p.path, Stripped(a, p.message), "function " + p.fn]);
  }

  /** Where a result was is told by its fingerprint, or by its line where it has none. */
  lemma WhereTells(p: Placed, p': Placed)
    ensures Where(p) == Where(p') <==>
      && (p.mark == "" <==> p'.mark == "")
      && (p.mark == "" ==> p.startLine == p'.startLine)
      && (p.mark != "" ==> p.scheme + " " + p.mark == p'.scheme + " " + p'.mark)
  {
    var printed, printed' := p.scheme + " " + p.mark, p'.scheme + " " + p'.mark;
    assert p.mark != "" ==> Where(p) == "fingerprint " + printed;
    assert p'.mark != "" ==> Where(p') == "fingerprint " + printed';
    assert ("fingerprint " + printed)[12..] == printed && ("fingerprint " + printed')[12..] == printed';
    assert ("line " + Itoa(p.startLine))[5..] == Itoa(p.startLine) && ("line " + Itoa(p'.startLine))[5..] == Itoa(p'.startLine);
    assert ("fingerprint " + printed)[0] == 'f' && ("fingerprint " + printed')[0] == 'f';
    assert ("line " + Itoa(p.startLine))[0] == 'l' && ("line " + Itoa(p'.startLine))[0] == 'l';
    if p.mark == "" && p'.mark == "" { ItoaTells(p.startLine, p'.startLine); }
  }

  lemma {:induction false} DecimalTells(n: nat, m: nat)
    ensures Decimal(n) == Decimal(m) <==> n == m
    ensures Decimal(n) != "" && Decimal(n)[0] != '-'
  {
    DecimalStarts(n);
    DecimalStarts(m);
    if n < 10 && m < 10 {
      DigitTells(n, m);
    } else if n >= 10 && m >= 10 {
      DecimalTells(n / 10, m / 10);
      if Decimal(n) == Decimal(m) {
        DecimalEnds(n);
        DecimalEnds(m);
        DigitTells(n % 10, m % 10);
      }
    }
  }

  lemma DigitTells(n: nat, m: nat)
    requires n < 10 && m < 10
    ensures ("0123456789")[n] == ("0123456789")[m] <==> n == m
  {}

  lemma DecimalEnds(n: nat)
    requires n >= 10
    ensures |Decimal(n)| == |Decimal(n / 10)| + 1
    ensures Decimal(n)[..|Decimal(n)| - 1] == Decimal(n / 10) && Decimal(n)[|Decimal(n)| - 1] == ("0123456789")[n % 10]
  {}

  lemma {:induction false} DecimalStarts(n: nat)
    ensures Decimal(n) != "" && Decimal(n)[0] != '-' && (n >= 10 ==> |Decimal(n)| >= 2) && (n < 10 ==> |Decimal(n)| == 1)
  {
    if n >= 10 { DecimalStarts(n / 10); }
  }

  lemma ItoaTells(n: int, m: int)
    ensures Itoa(n) == Itoa(m) <==> n == m
  {
    DecimalTells(if n < 0 then -n else n, if m < 0 then -m else m);
    DecimalTells(if m < 0 then -m else m, if n < 0 then -n else n);
    if n < 0 { assert Itoa(n)[0] == '-' && Itoa(n)[1..] == Decimal(-n); }
    if m < 0 { assert Itoa(m)[0] == '-' && Itoa(m)[1..] == Decimal(-m); }
  }

  lemma KeyLists(a: Alphabet, rule: string, p: Placed)
    ensures var k, m, whole := KeyOf(a, rule, p), Stripped(a, p.message), [Where(p), Stripped(a, p.message), p.fn, p.chain];
            && k.key == Digest([rule, p.path] + whole) && k.unprintedKey == Digest([rule, p.path] + whole[1..])
            && (k.functionKey != "" ==> k.functionKey == Digest([rule, p.path] + [m, "function " + p.fn]))
            && k.lineKey == Digest([rule, p.path] + [m])
  {
    hide Digest, Where, Stripped;
    var m, whole := Stripped(a, p.message), [Where(p), Stripped(a, p.message), p.fn, p.chain];
    assert [rule, p.path] + whole == [rule, p.path, Where(p), m, p.fn, p.chain];
    assert [rule, p.path] + whole[1..] == [rule, p.path, m, p.fn, p.chain];
    assert [rule, p.path] + [m, "function " + p.fn] == [rule, p.path, m, "function " + p.fn];
    assert [rule, p.path] + [m] == [rule, p.path, m];
  }

  lemma PathsApart(rule: string, path: string, rest: seq<string>, rule': string, path': string, rest': seq<string>)
    requires NulFree([rule]) && NulFree([rule']) && NulFree(rest) && NulFree(rest') && |rest| == |rest'|
    ensures Digest([rule, path] + rest) != ""
    ensures Digest([rule, path] + rest) == Digest([rule', path'] + rest') ==> rule == rule' && path == path' && rest == rest'
  {
    assert [rule, path] + rest == [rule] + [path] + rest && [rule', path'] + rest' == [rule'] + [path'] + rest';
    DigestEqual([rule], path, rest, [rule'], path', rest');
    DigestEndsPart([rule, path] + rest);
  }

  /** A finding's keys are those of the result that last described it. */
  ghost predicate Describes(a: Alphabet, c: Candidate, rule: string, p: Placed) {
    var k := KeyOf(a, rule, p);
    c.key == k.key && c.unprinted == k.unprintedKey && c.functionKey == k.functionKey && c.lineKey == k.lineKey
  }

  /** Keys built this way nest: MatchingCardinality applies to any run over any findings. */
  lemma BuiltKeysNest(a: Alphabet, cs: seq<Candidate>, rs: seq<Keyed>, told: seq<(string, Placed)>, said: seq<(string, Placed)>)
    requires |told| == |cs| && |said| == |rs|
    requires forall c :: 0 <= c < |cs| ==> Plain(told[c].0, told[c].1) && Describes(a, cs[c], told[c].0, told[c].1)
    requires forall r :: 0 <= r < |rs| ==> Plain(said[r].0, said[r].1) && rs[r] == KeyOf(a, said[r].0, said[r].1)
    ensures Nested(cs, rs)
  {
    forall c, r, on | 0 <= c < |cs| && 0 <= r < |rs| && KeyOfCandidate(cs[c], on) == KeyOfResult(rs[r], on) != ""
      ensures cs[c].lineKey == rs[r].lineKey
    {
      EqualKeys(a, told[c].0, told[c].1, said[r].0, said[r].1, on);
    }
  }
}
