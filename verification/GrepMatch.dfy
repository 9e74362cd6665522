/** grep's pattern matcher against a declarative meaning of its patterns. */
module GrepMatch {

  /** What one piece of a pattern stands for. */
  datatype Item = Char(c: char) | Any | Many(c: char) | ManyAny | End

  /** A pattern without its leading ^.  A star applies to the character before it, $ means the end only
      as the last character, and everything else is itself. */
  function Parse(re: string): seq<Item>
    decreases |re|
  {
    if re == [] then []
    else if |re| > 1 && re[1] == '*' then [if re[0] == '.' then ManyAny else Many(re[0])] + Parse(re[2..])
    else if re == "$" then [End]
    else [if re[0] == '.' then Any else Char(re[0])] + Parse(re[1..])
  }

  /** Text w is of the kind the piece asks for; End also asks that nothing follows. */
  predicate Fits(i: Item, w: string, last: bool) {
    match i
    case Char(c) => w == [c]
    case Any => |w| == 1
    case Many(c) => forall k :: 0 <= k < |w| ==> w[k] == c
    case ManyAny => true
    case End => w == [] && last
  }

  /** The text from the first cut on, cut at these places, fits the pieces one by one. */
  ghost predicate CutInto(items: seq<Item>, text: string, cuts: seq<nat>) {
    && |cuts| == |items| + 1
    && (forall k :: 0 <= k < |cuts| ==> cuts[k] <= |text|)
    && (forall k :: 0 <= k < |items| ==> PieceFits(items, text, cuts, k))
  }

  ghost predicate PieceFits(items: seq<Item>, text: string, cuts: seq<nat>, k: nat)
    requires k < |items| && |cuts| == |items| + 1
  {
    cuts[k] <= cuts[k + 1] <= |text| && Fits(items[k], text[cuts[k]..cuts[k + 1]], cuts[k + 1] == |text|)
  }

  /** Some beginning of the text from position p on fits the pieces. */
  ghost predicate Here(items: seq<Item>, text: string, p: nat) {
    exists cuts :: CutInto(items, text, cuts) && cuts[0] == p
  }

  /** The meaning of a whole pattern: anchored at the start with ^, anywhere without. */
  ghost predicate Matches(re: string, text: string) {
    if re != [] && re[0] == '^' then Here(Parse(re[1..]), text, 0)
    else Somewhere(Parse(re), text)
  }

  ghost predicate Somewhere(items: seq<Item>, text: string) {
    exists p: nat :: p <= |text| && Here(items, text, p)
  }

  // ---------------------------------------------------------------- taking the first piece off

  lemma {:induction false} HereNone(text: string, p: nat)
    requires p <= |text|
    ensures Here([], text, p)
  {
    assert CutInto([], text, [p]) && [p][0] == p;
  }

  /** The first piece ends somewhere, and the rest matches from there on. */
  ghost predicate First(i: Item, items: seq<Item>, text: string, p: nat, q: nat) {
    p <= q <= |text| && Fits(i, text[p..q], q == |text|) && Here(items, text, q)
  }

  lemma {:induction false} HereFirst(i: Item, items: seq<Item>, text: string, p: nat)
    ensures Here([i] + items, text, p) <==> exists q: nat :: First(i, items, text, p, q)
  {
    var all := [i] + items;
    if Here(all, text, p) {
      var cuts :| CutInto(all, text, cuts) && cuts[0] == p;
      var rest := cuts[1..];
      assert PieceFits(all, text, cuts, 0);
      forall k | 0 <= k < |items| ensures PieceFits(items, text, rest, k) {
        assert PieceFits(all, text, cuts, k + 1);
      }
      assert CutInto(items, text, rest) && rest[0] == cuts[1];
      assert First(i, items, text, p, cuts[1]);
    }
    if q: nat :| First(i, items, text, p, q) {
      var rest :| CutInto(items, text, rest) && rest[0] == q;
      var cuts := [p] + rest;
      forall k | 0 <= k < |all| ensures PieceFits(all, text, cuts, k) {
        if k > 0 { assert PieceFits(items, text, rest, k - 1); }
      }
      assert CutInto(all, text, cuts) && cuts[0] == p;
    }
  }

  /** A single character is taken if there is one and it fits. */
  lemma {:induction false} HereOne(i: Item, items: seq<Item>, text: string, p: nat)
    requires (i.Char? || i.Any?) && p <= |text|
    ensures Here([i] + items, text, p) <==> p < |text| && (i.Any? || i.c == text[p]) && Here(items, text, p + 1)
  {
    HereFirst(i, items, text, p);
    if p < |text| && (i.Any? || i.c == text[p]) && Here(items, text, p + 1) {
      assert text[p..p + 1] == [text[p]];
      assert First(i, items, text, p, p + 1);
    }
    if q: nat :| First(i, items, text, p, q) {
      assert q == p + 1 && text[p..q][0] == text[p];
    }
  }

  lemma {:induction false} HereEnd(text: string, p: nat)
    requires p <= |text|
    ensures Here([End], text, p) <==> p == |text|
  {
    assert [End] == [End] + [];
    HereFirst(End, [], text, p);
    if p == |text| {
      HereNone(text, p);
      assert text[p..p] == [];
      assert First(End, [], text, p, p);
    }
  }

  /** A star takes any run of its character. */
  lemma {:induction false} HereStar(i: Item, items: seq<Item>, text: string, p: nat)
    requires (i.Many? || i.ManyAny?) && p <= |text|
    ensures Here([i] + items, text, p) <==>
            exists q: nat :: p <= q <= |text| && Run(i, text, p, q) && Here(items, text, q)
  {
    HereFirst(i, items, text, p);
    if q: nat :| First(i, items, text, p, q) {
      forall k | p <= k < q ensures i.ManyAny? || text[k] == i.c {
        assert text[p..q][k - p] == text[k];
      }
      assert Run(i, text, p, q);
    }
    if q: nat :| p <= q <= |text| && Run(i, text, p, q) && Here(items, text, q) {
      assert First(i, items, text, p, q);
    }
  }

  ghost predicate Run(i: Item, text: string, p: nat, q: nat)
    requires (i.Many? || i.ManyAny?) && p <= q <= |text|
  {
    forall k :: p <= k < q ==> i.ManyAny? || text[k] == i.c
  }

  // ---------------------------------------------------------------- the matcher

  /** match. */
  method Match(re: string, text: string) returns (b: bool)
    ensures b <==> Matches(re, text)
  {
    if re != [] && re[0] == '^' {
      b := MatchHere(re[1..], text, 0);
      return;
    }
    var p: nat := 0;
    while true
      invariant p <= |text| && forall k: nat :: k < p ==> !Here(Parse(re), text, k)
      decreases |text| - p
    {
      var here := MatchHere(re, text, p);
      if here { return true; }
      if p == |text| { break; }
      p := p + 1;
    }
    return false;
  }

  /** matchhere from position p on; the end of the text is its NUL. */
  method MatchHere(re: string, text: string, p: nat) returns (b: bool)
    requires p <= |text|
    ensures b <==> Here(Parse(re), text, p)
    decreases |re|, 1
  {
    if re == [] {
      HereNone(text, p);
      return true;
    }
    if |re| > 1 && re[1] == '*' {
      b := MatchStar(re[0], re[2..], text, p);
      return;
    }
    if re == "$" {
      HereEnd(text, p);
      return p == |text|;
    }
    HereOne(if re[0] == '.' then Any else Char(re[0]), Parse(re[1..]), text, p);
    if p < |text| && (re[0] == '.' || re[0] == text[p]) {
      b := MatchHere(re[1..], text, p + 1);
      return;
    }
    return false;
  }

  /** matchstar. */
  method MatchStar(c: char, re: string, text: string, p: nat) returns (b: bool)
    requires p <= |text|
    ensures b <==> Here([if c == '.' then ManyAny else Many(c)] + Parse(re), text, p)
    decreases |re|, 2
  {
    var star := if c == '.' then ManyAny else Many(c);
    HereStar(star, Parse(re), text, p);
    var t := p;
    while true
      invariant p <= t <= |text| && Run(star, text, p, t)
      invariant forall k: nat :: p <= k < t ==> !Here(Parse(re), text, k)
      decreases |text| - t
    {
      var here := MatchHere(re, text, t);
      if here { return true; }
      if t == |text| || !(text[t] == c || c == '.') { break; }
      t := t + 1;
    }
    return false;
  }
}
