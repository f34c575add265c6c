/**
 * The regular expressions of ed: `compile` turns the text of a pattern into byte code,
 * `execute` and `advance` search a line with it by backtracking.
 */
module EdRegex {
  const ESIZE := 128
  const NBRA := 5

  const CBRA := 1
  const CCHR := 2
  const CDOT := 4
  const CCL := 6
  const NCCL := 8
  const CDOL := 10
  const CEOF := 11
  const CKET := 12
  const STAR := 1

  /** Characters as byte values; 0 ends a line. */
  type Byte = nat

  datatype Atom = Lit(c: Byte) | Any | Set(negated: bool, chars: seq<Byte>)

  datatype Item = One(a: Atom) | Many(a: Atom) | Open(n: nat) | Close(n: nat) | LineEnd

  // -------------------------------------------------------------------- meaning

  predicate Fits(a: Atom, c: Byte) {
    match a
    case Lit(x) => c == x
    case Any => true
    case Set(negated, chars) => (c in chars) != negated
  }

  predicate AllFit(a: Atom, w: seq<Byte>) {
    forall i :: 0 <= i < |w| ==> Fits(a, w[i])
  }

  /** The words a pattern stands for; brackets and `$` stand for nothing by themselves. */
  ghost predicate Denotes(items: seq<Item>, w: seq<Byte>) {
    if items == [] then w == []
    else
      var rest := items[1..];
      match items[0]
      case One(a) => w != [] && Fits(a, w[0]) && Denotes(rest, w[1..])
      case Many(a) => exists k :: 0 <= k <= |w| && AllFit(a, w[..k]) && Denotes(rest, w[k..])
      case Open(_) => Denotes(rest, w)
      case Close(_) => Denotes(rest, w)
      case LineEnd => Denotes(rest, w)
  }

  /** A pattern as `compile` makes it: `$` only at the very end, no NUL to look for. */
  predicate WellFormed(items: seq<Item>) {
    forall i :: 0 <= i < |items| ==> ItemOk(items[i]) && (items[i].LineEnd? ==> i == |items| - 1)
  }

  predicate ItemOk(it: Item) {
    match it
    case One(a) => AtomOk(a)
    case Many(a) => AtomOk(a)
    case Open(n) => n < NBRA
    case Close(n) => n < NBRA
    case LineEnd => true
  }

  predicate AtomOk(a: Atom) {
    a.Lit? ==> a.c != 0
  }

  predicate Anchored(items: seq<Item>) {
    items != [] && items[|items| - 1].LineEnd?
  }

  /** The part `i .. j` of a line matches the pattern. */
  ghost predicate Matches(items: seq<Item>, line: seq<Byte>, i: nat, j: nat) {
    i <= j <= |line| && Denotes(items, line[i..j]) && (Anchored(items) ==> j == |line|)
  }

  // ---------------------------------------------------------------------- byte code

  function Encode(it: Item): (code: seq<nat>)
    ensures |code| >= 1
  {
    match it
    case One(a) => EncodeAtom(a, 0)
    case Many(a) => EncodeAtom(a, STAR)
    case Open(n) => [CBRA, n]
    case Close(n) => [CKET, n]
    case LineEnd => [CDOL]
  }

  function EncodeAtom(a: Atom, star: nat): (code: seq<nat>)
    ensures |code| >= 1
  {
    match a
    case Lit(c) => [CCHR + star, c]
    case Any => [CDOT + star]
    case Set(negated, chars) => [(if negated then NCCL else CCL) + star, 1 + |chars|] + chars
  }

  function EncodeAll(items: seq<Item>): seq<nat> {
    if items == [] then [] else Encode(items[0]) + EncodeAll(items[1..])
  }

  /** The byte code at offset `ep` is that of the items from `k` on. */
  ghost predicate CodeAt(code: seq<nat>, ep: nat, items: seq<Item>, k: nat) {
    k <= |items| && ep <= |code| && EncodeAll(items[k..]) + [CEOF] <= code[ep..]
  }

  lemma CodeHere(code: seq<nat>, ep: nat, items: seq<Item>, k: nat)
    requires CodeAt(code, ep, items, k)
    ensures ep < |code|
    ensures k == |items| ==> code[ep] == CEOF
    ensures k < |items| ==> ep + |Encode(items[k])| < |code| && code[ep..ep + |Encode(items[k])|] == Encode(items[k])
    ensures k < |items| ==> CodeAt(code, ep + |Encode(items[k])|, items, k + 1)
  {
    var rest := items[k..];
    var tail := code[ep..];
    if k < |items| {
      var e := Encode(items[k]);
      assert rest[0] == items[k] && rest[1..] == items[k + 1..];
      assert EncodeAll(rest) + [CEOF] == e + (EncodeAll(items[k + 1..]) + [CEOF]);
      assert tail[..|e|] == e by {
        assert e <= tail;
      }
      assert code[ep + |e|..] == tail[|e|..];
      assert EncodeAll(items[k + 1..]) + [CEOF] <= tail[|e|..];
    }
  }

  // ------------------------------------------------------------- stepping through a line

  /** What `*lp` reads: the line is followed by a NUL. */
  function CharAt(line: seq<Byte>, i: nat): Byte
    requires i <= |line|
  {
    if i < |line| then line[i] else 0
  }

  predicate IsLine(line: seq<Byte>) {
    forall i :: 0 <= i < |line| ==> line[i] != 0
  }

  lemma AnchoredRest(items: seq<Item>, k: nat)
    requires k < |items| && WellFormed(items)
    ensures items[k].LineEnd? ==> k == |items| - 1
    ensures !items[k].LineEnd? ==> Anchored(items[k..]) == Anchored(items[k + 1..])
  {
    if k + 1 < |items| {
      assert items[k..][|items[k..]| - 1] == items[k + 1..][|items[k + 1..]| - 1];
    }
  }

  lemma StepOne(items: seq<Item>, k: nat, line: seq<Byte>, i: nat, j: nat)
    requires k < |items| && WellFormed(items) && items[k].One? && i <= |line|
    ensures Matches(items[k..], line, i, j)
      <==> i < |line| && Fits(items[k].a, line[i]) && Matches(items[k + 1..], line, i + 1, j)
  {
    AnchoredRest(items, k);
    var rest := items[k..];
    assert rest[0] == items[k] && rest[1..] == items[k + 1..];
    if i < j <= |line| {
      assert line[i..j][0] == line[i] && line[i..j][1..] == line[i + 1..j];
    }
  }

  lemma StepMark(items: seq<Item>, k: nat, line: seq<Byte>, i: nat, j: nat)
    requires k < |items| && WellFormed(items) && (items[k].Open? || items[k].Close?)
    ensures Matches(items[k..], line, i, j) <==> Matches(items[k + 1..], line, i, j)
  {
    AnchoredRest(items, k);
    var rest := items[k..];
    assert rest[0] == items[k] && rest[1..] == items[k + 1..];
  }

  lemma StepLineEnd(items: seq<Item>, k: nat, line: seq<Byte>, i: nat, j: nat)
    requires k < |items| && WellFormed(items) && items[k].LineEnd?
    ensures Matches(items[k..], line, i, j) <==> i == |line| && Matches(items[k + 1..], line, i, j)
  {
    AnchoredRest(items, k);
    var rest := items[k..];
    assert rest[0] == items[k] && rest[1..] == [] && items[k + 1..] == [] && rest == [LineEnd];
    assert Anchored(rest) && !Anchored([]);
    if i <= j <= |line| {
      assert Denotes(rest, line[i..j]) <==> line[i..j] == [];
    }
  }

  /** A starred item takes some run of fitting characters, and the rest goes on behind it. */
  lemma StepMany(items: seq<Item>, k: nat, line: seq<Byte>, i: nat, j: nat)
    requires k < |items| && WellFormed(items) && items[k].Many? && i <= |line|
    ensures Matches(items[k..], line, i, j) <==>
      exists n: nat :: i <= n <= |line| && AllFit(items[k].a, line[i..n]) && Matches(items[k + 1..], line, n, j)
  {
    hide AllFit;
    AnchoredRest(items, k);
    var rest := items[k..];
    var a := items[k].a;
    assert rest[0] == items[k] && rest[1..] == items[k + 1..];
    if Matches(rest, line, i, j) {
      var w := line[i..j];
      var n :| 0 <= n <= |w| && AllFit(a, w[..n]) && Denotes(rest[1..], w[n..]);
      Slices(line, i, i + n, j);
      assert AllFit(a, line[i..i + n]) && Matches(items[k + 1..], line, i + n, j);
    }
    if n: nat :| i <= n <= |line| && AllFit(a, line[i..n]) && Matches(items[k + 1..], line, n, j) {
      var w := line[i..j];
      Slices(line, i, n, j);
    }
  }

  lemma Slices(line: seq<Byte>, i: nat, n: nat, j: nat)
    requires i <= n <= j <= |line|
    ensures line[i..j][..n - i] == line[i..n] && line[i..j][n - i..] == line[n..j]
  {
  }

  /** The end of the longest run of fitting characters from `i` on. */
  ghost predicate RunEnds(a: Atom, line: seq<Byte>, i: nat, n: nat) {
    i <= n <= |line| && AllFit(a, line[i..n]) && (n < |line| ==> !Fits(a, line[n]))
  }

  lemma RunIsLongest(a: Atom, line: seq<Byte>, i: nat, n: nat, k: nat)
    requires RunEnds(a, line, i, n) && i <= k <= |line|
    ensures AllFit(a, line[i..k]) <==> k <= n
  {
    if k <= n {
      assert forall t :: 0 <= t < |line[i..k]| ==> line[i..k][t] == line[i..n][t];
    } else {
      assert line[i..k][n - i] == line[n];
    }
  }

  /** `cclass`: look `c` up in the class stored at `set`. */
  method Cclass(code: seq<nat>, set0: nat, c: Byte, af: bool, ghost chars: seq<Byte>) returns (r: bool)
    requires
      && set0 < |code| && code[set0] == 1 + |chars| && set0 + 1 + |chars| <= |code|
      && code[set0 + 1..set0 + 1 + |chars|] == chars
    ensures r <==> c != 0 && (c in chars) == af
  {
    if c == 0 {
      return false;
    }
    var n, at := code[set0] - 1, set0 + 1;
    while n != 0
      invariant 0 <= n <= |chars| && at == set0 + 1 + (|chars| - n) && c !in chars[..|chars| - n]
      decreases n
    {
      assert code[at] == chars[|chars| - n];
      if code[at] == c {
        return af;
      }
      assert chars[..|chars| - n + 1] == chars[..|chars| - n] + [chars[|chars| - n]];
      at := at + 1;
      n := n - 1;
    }
    assert chars[..|chars|] == chars;
    return !af;
  }

  ghost predicate AtomCode(code: seq<nat>, ep: nat, a: Atom, star: nat) {
    ep + |EncodeAtom(a, star)| <= |code| && code[ep..ep + |EncodeAtom(a, star)|] == EncodeAtom(a, star)
  }

  // ------------------------------------------------------------- where the items lie in a line

  /** The item takes the part `i .. j`. */
  ghost predicate Takes(it: Item, line: seq<Byte>, i: nat, j: nat) {
    i <= j <= |line| &&
    match it
    case One(a) => j == i + 1 && Fits(a, line[i])
    case Many(a) => AllFit(a, line[i..j])
    case Open(_) => j == i
    case Close(_) => j == i
    case LineEnd => j == i == |line|
  }

  ghost predicate TakesAt(items: seq<Item>, k: nat, line: seq<Byte>, cuts: seq<nat>, t: nat)
    requires k + t < |items| && t + 1 < |cuts|
  {
    Takes(items[k + t], line, cuts[t], cuts[t + 1])
  }

  /** The items from `k` up to `m` lie one behind the other in `i .. j`, with these places in between. */
  ghost predicate Cuts(items: seq<Item>, k: nat, m: nat, line: seq<Byte>, i: nat, j: nat, cuts: seq<nat>) {
    && k <= m <= |items| && |cuts| == m - k + 1 && cuts[0] == i && cuts[m - k] == j
    && forall t: nat :: t < m - k ==> TakesAt(items, k, line, cuts, t)
  }

  /** A bracket is recorded at the place `at`. */
  ghost predicate Noted(it: Item, at: nat, bras: map<nat, nat>, brae: map<nat, nat>) {
    && (it.Open? ==> it.n in bras && bras[it.n] == at)
    && (it.Close? ==> it.n in brae && brae[it.n] == at)
  }

  /** All brackets are, from item `k` on. */
  ghost predicate Recorded(items: seq<Item>, k: nat, cuts: seq<nat>, bras: map<nat, nat>, brae: map<nat, nat>)
    requires k + |cuts| <= |items| + 1
  {
    forall t :: 0 <= t < |cuts| - 1 ==> Noted(items[k + t], cuts[t], bras, brae)
  }

  /** No two brackets are the same. */
  ghost predicate Distinct(items: seq<Item>) {
    forall s, t :: 0 <= s < t < |items| && (items[s].Open? || items[s].Close?) ==> items[s] != items[t]
  }

  /** Only entries of brackets from item `k` on have changed. */
  ghost predicate Kept(items: seq<Item>, k: nat, bras: map<nat, nat>, brae: map<nat, nat>, bras': map<nat, nat>,
                       brae': map<nat, nat>) {
    && k <= |items|
    && (forall n :: n in bras && Open(n) !in items[k..] ==> n in bras' && bras'[n] == bras[n])
    && (forall n :: n in brae && Close(n) !in items[k..] ==> n in brae' && brae'[n] == brae[n])
  }

  /** What is known when the items from `k0` up to `k` have been passed. */
  ghost predicate Passed(items: seq<Item>, k0: nat, k: nat, line: seq<Byte>, i: nat, j: nat, cuts: seq<nat>,
                         bras: map<nat, nat>, brae: map<nat, nat>) {
    Cuts(items, k0, k, line, i, j, cuts) && (Distinct(items) ==> Recorded(items, k0, cuts, bras, brae))
  }

  function Opened(it: Item, at: nat, bras: map<nat, nat>): map<nat, nat> {
    if it.Open? then bras[it.n := at] else bras
  }

  function Closed(it: Item, at: nat, brae: map<nat, nat>): map<nat, nat> {
    if it.Close? then brae[it.n := at] else brae
  }

  lemma PassedNone(items: seq<Item>, k: nat, line: seq<Byte>, i: nat, bras: map<nat, nat>, brae: map<nat, nat>)
    requires k <= |items|
    ensures Passed(items, k, k, line, i, i, [i], bras, brae) && Kept(items, k, bras, brae, bras, brae)
  {
  }

  lemma CutsMore(items: seq<Item>, k0: nat, k: nat, line: seq<Byte>, i: nat, j: nat, cuts: seq<nat>, j': nat)
    requires Cuts(items, k0, k, line, i, j, cuts) && k < |items| && Takes(items[k], line, j, j')
    ensures Cuts(items, k0, k + 1, line, i, j', cuts + [j'])
  {
    var c := cuts + [j'];
    forall t: nat | t < k + 1 - k0 ensures TakesAt(items, k0, line, c, t) {
      assert c[t] == cuts[t];
      if t < k - k0 {
        assert TakesAt(items, k0, line, cuts, t) && c[t + 1] == cuts[t + 1];
      }
    }
  }

  /** What was recorded of the items in front of `k` is still there. */
  lemma RecordedKept(items: seq<Item>, k0: nat, k: nat, cuts: seq<nat>, bras: map<nat, nat>, brae: map<nat, nat>,
                     bras': map<nat, nat>, brae': map<nat, nat>)
    requires k0 <= k <= |items| && |cuts| == k - k0 + 1 && Distinct(items)
    requires Recorded(items, k0, cuts, bras, brae) && Kept(items, k, bras, brae, bras', brae')
    ensures Recorded(items, k0, cuts, bras', brae')
  {
    forall t | 0 <= t < |cuts| - 1 ensures Noted(items[k0 + t], cuts[t], bras', brae') {
      assert Noted(items[k0 + t], cuts[t], bras, brae);
    }
  }

  /** Passing one more item, which takes `j .. j'`. */
  lemma PassedMore(items: seq<Item>, k0: nat, k: nat, line: seq<Byte>, i: nat, j: nat, cuts: seq<nat>,
                   bras: map<nat, nat>, brae: map<nat, nat>, j': nat)
    requires Passed(items, k0, k, line, i, j, cuts, bras, brae) && k < |items| && Takes(items[k], line, j, j')
    ensures Passed(items, k0, k + 1, line, i, j', cuts + [j'], Opened(items[k], j, bras), Closed(items[k], j, brae))
    ensures Kept(items, k, bras, brae, Opened(items[k], j, bras), Closed(items[k], j, brae))
  {
    hide TakesAt, Takes;
    var bras', brae' := Opened(items[k], j, bras), Closed(items[k], j, brae);
    CutsMore(items, k0, k, line, i, j, cuts, j');
    assert items[k] in items[k..] by {
      assert items[k..][0] == items[k];
    }
    assert Kept(items, k, bras, brae, bras', brae');
    if Distinct(items) {
      RecordedKept(items, k0, k, cuts, bras, brae, bras', brae');
      var c := cuts + [j'];
      forall t | 0 <= t < |c| - 1 ensures Noted(items[k0 + t], c[t], bras', brae') {
        assert c[t] == cuts[t];
        if t < k - k0 {
          assert Noted(items[k0 + t], cuts[t], bras', brae');
        }
      }
    }
  }

  lemma KeptOn(items: seq<Item>, k0: nat, k: nat, b0: map<nat, nat>, e0: map<nat, nat>, b: map<nat, nat>,
               e: map<nat, nat>, b': map<nat, nat>, e': map<nat, nat>)
    requires k0 <= k && Kept(items, k0, b0, e0, b, e) && Kept(items, k, b, e, b', e')
    ensures Kept(items, k0, b0, e0, b', e')
  {
    assert forall it :: it in items[k..] ==> it in items[k0..] by {
      assert items[k..] == items[k0..][k - k0..];
    }
  }

  /** Two stretches of items, one behind the other. */
  lemma PassedBoth(items: seq<Item>, k0: nat, k: nat, line: seq<Byte>, i: nat, j: nat, j': nat,
                   c: seq<nat>, d: seq<nat>, b: map<nat, nat>, e: map<nat, nat>, b': map<nat, nat>, e': map<nat, nat>)
    requires Passed(items, k0, k, line, i, j, c, b, e) && Kept(items, k, b, e, b', e')
    requires Passed(items, k, |items|, line, j, j', d, b', e')
    ensures Passed(items, k0, |items|, line, i, j', c + d[1..], b', e')
  {
    hide Takes, Noted;
    var m, cd := k - k0, c + d[1..];
    assert forall t :: m <= t < |cd| ==> cd[t] == d[t - m];
    forall t: nat | t < |items| - k0 ensures TakesAt(items, k0, line, cd, t) {
      if t < m {
        assert TakesAt(items, k0, line, c, t);
      } else {
        assert TakesAt(items, k, line, d, t - m);
      }
    }
    if Distinct(items) {
      RecordedKept(items, k0, k, c, b, e, b', e');
      forall t | 0 <= t < |cd| - 1 ensures Noted(items[k0 + t], cd[t], b', e') {
        if t < m {
          assert Noted(items[k0 + t], c[t], b', e');
        } else {
          assert Noted(items[k + (t - m)], d[t - m], b', e');
        }
      }
    }
  }

  /** What lies between two cuts is a word of the items between them. */
  lemma {:induction false} CutsDenote(items: seq<Item>, line: seq<Byte>, i: nat, j: nat, cuts: seq<nat>, s: nat, t: nat)
    requires Cuts(items, 0, |items|, line, i, j, cuts) && s <= t <= |items| && i <= |line|
    ensures cuts[s] <= cuts[t] <= |line| && Denotes(items[s..t], line[cuts[s]..cuts[t]])
    decreases t - s
  {
    if s < t {
      assert TakesAt(items, 0, line, cuts, s);
      CutsDenote(items, line, i, j, cuts, s + 1, t);
      assert items[s..t][0] == items[s] && items[s..t][1..] == items[s + 1..t];
      Slices(line, cuts[s], cuts[s + 1], cuts[t]);
    } else if s > 0 {
      assert TakesAt(items, 0, line, cuts, s - 1);
    }
  }

  /** A part that was put in brackets is recorded, and it is a word of what stands in the brackets. */
  lemma BracketedPart(items: seq<Item>, line: seq<Byte>, i: nat, j: nat, cuts: seq<nat>, bras: map<nat, nat>,
                      brae: map<nat, nat>, s: nat, t: nat)
    requires Passed(items, 0, |items|, line, i, j, cuts, bras, brae) && Distinct(items) && i <= |line|
    requires s < t < |items| && items[s].Open? && items[t] == Close(items[s].n)
    ensures items[s].n in bras && items[s].n in brae && i <= bras[items[s].n] <= brae[items[s].n] <= j <= |line|
    ensures Denotes(items[s + 1..t], line[bras[items[s].n]..brae[items[s].n]])
  {
    hide Denotes, Takes;
    assert Noted(items[0 + s], cuts[s], bras, brae) && Noted(items[0 + t], cuts[t], bras, brae);
    CutsDenote(items, line, i, j, cuts, 0, s);
    CutsDenote(items, line, i, j, cuts, s + 1, t);
    CutsDenote(items, line, i, j, cuts, t, |items|);
    assert cuts[s + 1] == cuts[s] by {
      assert TakesAt(items, 0, line, cuts, s);
      OpenTakes(items[s], line, cuts[s], cuts[s + 1]);
    }
  }

  lemma OpenTakes(it: Item, line: seq<Byte>, i: nat, j: nat)
    requires it.Open? && Takes(it, line, i, j)
    ensures i == j
  {
  }

  class Matcher {
    const code: seq<nat>
    const line: seq<Byte>
    var loc1: nat
    var loc2: nat
    var braslist: map<nat, nat>
    var braelist: map<nat, nat>

    constructor (code: seq<nat>, line: seq<Byte>, braslist: map<nat, nat>, braelist: map<nat, nat>)
      ensures this.code == code && this.line == line
    {
      this.code, this.line := code, line;
      loc1, loc2 := 0, 0;
      this.braslist, this.braelist := braslist, braelist;
    }

    /** Whether the atom encoded before `ep` fits the character at `lp`. */
    method AtomFits(op: nat, ep: nat, lp: nat, ghost a: Atom, ghost star: nat) returns (ok: bool)
      requires IsLine(line) && lp <= |line| && AtomOk(a) && star <= STAR && ep >= 1
      requires AtomCode(code, ep - 1, a, star)
      requires op == EncodeAtom(a, 0)[0]
      ensures ok <==> lp < |line| && Fits(a, line[lp])
    {
      ghost var e := EncodeAtom(a, star);
      ghost var seg := code[ep - 1..ep - 1 + |e|];
      assert seg[0] == code[ep - 1] && (|e| > 1 ==> seg[1] == code[ep]);
      if op == CCHR {
        ok := code[ep] == CharAt(line, lp);
      } else if op == CDOT {
        ok := CharAt(line, lp) != 0;
      } else {
        assert code[ep + 1..ep + 1 + |a.chars|] == e[2..] == a.chars;
        ok := Cclass(code, ep, CharAt(line, lp), op == CCL, a.chars);
      }
    }

    /** The greedy loops of the starred operators. */
    method SkipRun(op: nat, ep: nat, curlp: nat, ghost a: Atom) returns (lp: nat)
      requires IsLine(line) && curlp <= |line| && AtomOk(a) && ep >= 1
      requires AtomCode(code, ep - 1, a, STAR)
      requires op == EncodeAtom(a, 0)[0]
      ensures RunEnds(a, line, curlp, lp)
    {
      lp := curlp;
      var more := AtomFits(op, ep, lp, a, STAR);
      while more
        invariant curlp <= lp <= |line| && AllFit(a, line[curlp..lp]) && (more <==> lp < |line| && Fits(a, line[lp]))
        decreases |line| - lp
      {
        assert line[curlp..lp + 1] == line[curlp..lp] + [line[lp]];
        lp := lp + 1;
        more := AtomFits(op, ep, lp, a, STAR);
      }
    }

    /**
     * `advance`: run the code at `aep` against the line from `alp` on.  It succeeds exactly
     * when the pattern matches there, and `loc2` is then where the match ends.  `cuts` is then where
     * each item lies, and each bracket is recorded at its place.
     */
    method Advance(alp: nat, aep: nat, ghost items: seq<Item>, ghost k0: nat) returns (ok: bool, ghost cuts: seq<nat>)
      requires IsLine(line) && WellFormed(items) && alp <= |line| && CodeAt(code, aep, items, k0)
      modifies this`loc2, this`braslist, this`braelist
      ensures ok <==> exists j: nat :: Matches(items[k0..], line, alp, j)
      ensures ok ==> Matches(items[k0..], line, alp, loc2)
      ensures ok ==> Passed(items, k0, |items|, line, alp, loc2, cuts, braslist, braelist)
      ensures Kept(items, k0, old(braslist), old(braelist), braslist, braelist)
      decreases |items| - k0, 0
    {
      hide EncodeAll, EncodeAtom, Encode, AtomCode, CodeAt, Matches, WellFormed, Fits, Passed, Kept, AllFit;
      var lp: nat, ep: nat := alp, aep;
      ghost var k: nat := k0;
      assert k <= |items| by {
        CodeBound(code, ep, items, k);
      }
      PassedNone(items, k0, line, alp, braslist, braelist);
      cuts := [alp];
      while true
        invariant Passed(items, k0, k, line, alp, lp, cuts, braslist, braelist)
        invariant Kept(items, k0, old(braslist), old(braelist), braslist, braelist)
        invariant k0 <= k <= |items| && lp <= |line| && CodeAt(code, ep, items, k)
        invariant forall j: nat :: Matches(items[k0..], line, alp, j) <==> Matches(items[k..], line, lp, j)
        decreases |items| - k
      {
        CodeHere(code, ep, items, k);
        OpTells(code, ep, items, k);
        var op := code[ep];
        if op == CEOF {
          EndMatches(items, k, line, lp);
          loc2 := lp;
          return true, cuts;
        } else if op == CDOL {
          forall j: nat { StepLineEnd(items, k, line, lp, j); }
          if CharAt(line, lp) != 0 {
            return false, cuts;
          }
          PassedMore(items, k0, k, line, alp, lp, cuts, braslist, braelist, lp);
          ep, k, cuts := ep + 1, k + 1, cuts + [lp];
        } else if op == CBRA {
          forall j: nat { StepMark(items, k, line, lp, j); }
          PassedMore(items, k0, k, line, alp, lp, cuts, braslist, braelist, lp);
          KeptOn(items, k0, k, old(braslist), old(braelist), braslist, braelist,
                 Opened(items[k], lp, braslist), Closed(items[k], lp, braelist));
          braslist := braslist[code[ep + 1] := lp];
          ep, k, cuts := ep + 2, k + 1, cuts + [lp];
        } else if op == CKET {
          forall j: nat { StepMark(items, k, line, lp, j); }
          PassedMore(items, k0, k, line, alp, lp, cuts, braslist, braelist, lp);
          KeptOn(items, k0, k, old(braslist), old(braelist), braslist, braelist,
                 Opened(items[k], lp, braslist), Closed(items[k], lp, braelist));
          braelist := braelist[code[ep + 1] := lp];
          ep, k, cuts := ep + 2, k + 1, cuts + [lp];
        } else if op % 2 == 0 {
          forall j: nat { StepOne(items, k, line, lp, j); }
          var fits := AtomFits(op, ep + 1, lp, items[k].a, 0);
          if !fits {
            return false, cuts;
          }
          PassedMore(items, k0, k, line, alp, lp, cuts, braslist, braelist, lp + 1);
          lp, cuts := lp + 1, cuts + [lp + 1];
          ep, k := ep + (if op == CCHR then 2 else if op == CDOT then 1 else 1 + code[ep + 1]), k + 1;
        } else {
          var end := SkipRun(op - STAR, ep + 1, lp, items[k].a);
          ep := ep + if op == CCHR + STAR then 2 else if op == CDOT + STAR then 1 else 1 + code[ep + 1];
          ghost var bras, brae, rest := braslist, braelist, [];
          ok, rest := Backtrack(lp, end, ep, items, k);
          KeptOn(items, k0, k, old(braslist), old(braelist), bras, brae, braslist, braelist);
          if ok {
            PassedBoth(items, k0, k, line, alp, lp, loc2, cuts, rest, bras, brae, braslist, braelist);
            cuts := cuts + rest[1..];
          }
          return;
        }
      }
      assert false;
    }

    /** The `star` loop: give back one character after the other until the rest matches. */
    method Backtrack(curlp: nat, end: nat, ep: nat, ghost items: seq<Item>, ghost k: nat)
      returns (ok: bool, ghost cuts: seq<nat>)
      requires IsLine(line) && WellFormed(items) && k < |items| && items[k].Many? && CodeAt(code, ep, items, k + 1)
      requires RunEnds(items[k].a, line, curlp, end)
      modifies this`loc2, this`braslist, this`braelist
      ensures ok <==> exists j: nat :: Matches(items[k..], line, curlp, j)
      ensures ok ==> Matches(items[k..], line, curlp, loc2)
      ensures ok ==> Passed(items, k, |items|, line, curlp, loc2, cuts, braslist, braelist) && |cuts| > 0
      ensures Kept(items, k, old(braslist), old(braelist), braslist, braelist)
      decreases |items| - k - 1, 1
    {
      hide CodeAt, Matches, WellFormed, RunEnds, Passed, Kept, AllFit;
      RunBounds(items[k].a, line, curlp, end);
      ghost var rest := items[k + 1..];
      var lp := end + 1;
      PassedNone(items, k, line, curlp, braslist, braelist);
      cuts := [];
      while lp > curlp
        invariant Kept(items, k, old(braslist), old(braelist), braslist, braelist)
        invariant curlp <= lp <= end + 1
        invariant forall n: nat, j: nat :: lp <= n <= end ==> !Matches(rest, line, n, j)
      {
        lp := lp - 1;
        ghost var bras, brae := braslist, braelist;
        ok, cuts := Advance(lp, ep, items, k + 1);
        KeptOn(items, k, k + 1, old(braslist), old(braelist), bras, brae, braslist, braelist);
        if ok {
          RunIsLongest(items[k].a, line, curlp, end, lp);
          StepMany(items, k, line, curlp, loc2);
          StarPassed(items, k, line, curlp, lp, loc2, cuts, bras, brae, braslist, braelist);
          cuts := [curlp] + cuts;
          return;
        }
      }
      forall j: nat ensures !Matches(items[k..], line, curlp, j) {
        StepMany(items, k, line, curlp, j);
        forall n: nat | curlp <= n <= |line| && AllFit(items[k].a, line[curlp..n])
          ensures !Matches(items[k + 1..], line, n, j)
        {
          RunIsLongest(items[k].a, line, curlp, end, n);
        }
      }
      return false, cuts;
    }
  }

  /** A starred item in front of what has been passed. */
  lemma StarPassed(items: seq<Item>, k: nat, line: seq<Byte>, i: nat, j: nat, j': nat, d: seq<nat>,
                   b: map<nat, nat>, e: map<nat, nat>, b': map<nat, nat>, e': map<nat, nat>)
    requires k < |items| && items[k].Many? && i <= j <= |line| && AllFit(items[k].a, line[i..j])
    requires Passed(items, k + 1, |items|, line, j, j', d, b', e') && Kept(items, k + 1, b, e, b', e')
    ensures Passed(items, k, |items|, line, i, j', [i] + d, b', e')
  {
    hide Passed, Kept, AllFit;
    PassedNone(items, k, line, i, b, e);
    PassedMore(items, k, k, line, i, i, [i], b, e, j);
    PassedBoth(items, k, k + 1, line, i, j, j', [i] + [j], d, b, e, b', e');
    assert [i] + [j] + d[1..] == [i] + d by {
      PassedStarts(items, k + 1, line, j, j', d, b', e');
    }
  }

  lemma PassedStarts(items: seq<Item>, k: nat, line: seq<Byte>, i: nat, j: nat, c: seq<nat>, b: map<nat, nat>,
                     e: map<nat, nat>)
    requires Passed(items, k, |items|, line, i, j, c, b, e)
    ensures |c| > 0 && c[0] == i
  {
  }

  lemma RunBounds(a: Atom, line: seq<Byte>, i: nat, n: nat)
    requires RunEnds(a, line, i, n)
    ensures i <= n <= |line|
  {
  }

  lemma CodeBound(code: seq<nat>, ep: nat, items: seq<Item>, k: nat)
    requires CodeAt(code, ep, items, k)
    ensures k <= |items|
  {
  }

  lemma EndMatches(items: seq<Item>, k: nat, line: seq<Byte>, i: nat)
    requires k == |items| && i <= |line|
    ensures Matches(items[k..], line, i, i)
  {
    assert items[k..] == [] && line[i..i] == [];
  }

  /** The operator byte tells the item. */
  lemma OpTells(code: seq<nat>, ep: nat, items: seq<Item>, k: nat)
    requires CodeAt(code, ep, items, k) && WellFormed(items) && k <= |items| && ep < |code|
    requires k == |items| ==> code[ep] == CEOF
    requires k < |items| ==> ep + |Encode(items[k])| < |code| && code[ep..ep + |Encode(items[k])|] == Encode(items[k])
    ensures code[ep] == CEOF <==> k == |items|
    ensures k < |items| ==> ItemOk(items[k])
    ensures k < |items| && items[k].LineEnd? <==> code[ep] == CDOL
    ensures k < |items| && items[k].Open? <==> code[ep] == CBRA
    ensures k < |items| && items[k].Close? <==> code[ep] == CKET
    ensures k < |items| && (items[k].One? || items[k].Many?) ==>
      && |Encode(items[k])|
        == (var op := code[ep] / 2 * 2; if op == CCHR then 2 else if op == CDOT then 1 else 1 + code[ep + 1])
      && (items[k].One? <==> code[ep] % 2 == 0)
      && AtomCode(code, ep, items[k].a, if items[k].One? then 0 else STAR)
      && code[ep] / 2 * 2 == EncodeAtom(items[k].a, 0)[0]
    ensures k < |items| && (items[k].Open? || items[k].Close?) ==> |Encode(items[k])| == 2 && code[ep + 1] == items[k].n
    ensures k < |items| && items[k].LineEnd? ==> |Encode(items[k])| == 1
  {
    if k < |items| {
      var e := Encode(items[k]);
      var seg := code[ep..ep + |e|];
      assert seg[0] == code[ep] && (|e| > 1 ==> seg[1] == code[ep + 1]);
    }
  }

  // ---------------------------------------------------------------------- syntax

  const NEWLINE: Byte := 10
  const DOLLAR: Byte := 36
  const LPAREN: Byte := 40
  const RPAREN: Byte := 41
  const ASTERISK: Byte := 42
  const PERIOD: Byte := 46
  const LBRACKET: Byte := 91
  const BACKSLASH: Byte := 92
  const RBRACKET: Byte := 93
  const CARET: Byte := 94

  datatype Option<T> = None | Some(value: T)

  /** One element of a pattern and how many characters it takes. */
  datatype Piece = Piece(it: Item, size: nat)

  /** Where a bracketed class ends, looking from `e` on. */
  function ClassEnd(t: seq<Byte>, e: nat): (r: Option<nat>)
    ensures r.Some? ==> e <= r.value < |t|
    decreases |t| - e
  {
    if e >= |t| || t[e] == NEWLINE then None
    else if t[e] == RBRACKET then Some(e)
    else ClassEnd(t, e + 1)
  }

  /** A class; a `]` that comes first stands for itself. */
  function ClassPiece(t: seq<Byte>): Option<Piece> {
    var start := if |t| > 1 && t[1] == CARET then 2 else 1;
    if start >= |t| || t[start] == NEWLINE then None
    else
      var e := ClassEnd(t, start + 1);
      if e.None? then None else Some(Piece(One(Set(start == 2, t[start..e.value])), e.value + 1))
  }

  /** The next element, given how many `\\(` were seen and which of them are open. */
  function NextPiece(t: seq<Byte>, eof: Byte, nbra: nat, open: seq<nat>): (r: Option<Piece>)
    requires t != []
    ensures r.Some? ==> 1 <= r.value.size <= |t|
  {
    var c := t[0];
    if c == BACKSLASH then
      if |t| < 2 then None
      else if t[1] == LPAREN then (if nbra >= NBRA then None else Some(Piece(Open(nbra), 2)))
      else if t[1] == RPAREN then (if open == [] then None else Some(Piece(Close(open[|open| - 1]), 2)))
      else if t[1] == NEWLINE then None
      else Some(Piece(One(Lit(t[1])), 2))
    else if c == PERIOD then Some(Piece(One(Any), 1))
    else if c == NEWLINE then None
    else if c == DOLLAR then
      if |t| < 2 then None else Some(Piece(if t[1] == eof then LineEnd else One(Lit(c)), 1))
    else if c == LBRACKET then ClassPiece(t)
    else Some(Piece(One(Lit(c)), 1))
  }

  function BracketsAfter(it: Item, open: seq<nat>): seq<nat> {
    if it.Open? then open + [it.n] else if it.Close? && open != [] then open[..|open| - 1] else open
  }

  /** Reading on from `items`: a star applies to the last of them, the delimiter ends the pattern. */
  function Parse(t: seq<Byte>, eof: Byte, items: seq<Item>, nbra: nat, open: seq<nat>): Option<seq<Item>>
    decreases |t|
  {
    if t == [] then None
    else if t[0] == eof then Some(items)
    else if t[0] == ASTERISK then
      if items == [] then None else
      var n := |items| - 1;
      var last := items[n];
      if last.One? || last.Many? then Parse(t[1..], eof, items[..n] + [Many(last.a)], nbra, open) else None
    else
      var p := NextPiece(t, eof, nbra, open);
      if p.None? then None
      else
        var it := p.value.it;
        Parse(t[p.value.size..], eof, items + [it], if it.Open? then nbra + 1 else nbra, BracketsAfter(it, open))
  }

  /** A pattern behind its anchor: no star may come first, not even as the delimiter. */
  function ParsePattern(t: seq<Byte>, eof: Byte): Option<seq<Item>> {
    if t != [] && t[0] == ASTERISK then None else Parse(t, eof, [], 0, [])
  }

  lemma {:induction false} EncodeAppend(items: seq<Item>, it: Item)
    ensures EncodeAll(items + [it]) == EncodeAll(items) + Encode(it)
  {
    if items == [] {
      assert [it][1..] == [];
      assert EncodeAll([it]) == Encode(it) + EncodeAll([]);
    } else {
      assert (items + [it])[1..] == items[1..] + [it];
      EncodeAppend(items[1..], it);
    }
  }

  /** The code only grows as more is read. */
  lemma {:induction false} ParseGrows(t: seq<Byte>, eof: Byte, items: seq<Item>, nbra: nat, open: seq<nat>)
    ensures var r := Parse(t, eof, items, nbra, open); r.Some? ==> |EncodeAll(items)| <= |EncodeAll(r.value)|
    decreases |t|
  {
    if t != [] && t[0] != eof {
      if t[0] == ASTERISK {
        if items != [] {
          var n := |items| - 1;
          var last := items[n];
          if last.One? || last.Many? {
            ParseGrows(t[1..], eof, items[..n] + [Many(last.a)], nbra, open);
            assert items == items[..n] + [last];
            EncodeAppend(items[..n], last);
            EncodeAppend(items[..n], Many(last.a));
          }
        }
      } else {
        var p := NextPiece(t, eof, nbra, open);
        if p.Some? {
          var it := p.value.it;
          var nbra' := if it.Open? then nbra + 1 else nbra;
          ParseGrows(t[p.value.size..], eof, items + [it], nbra', BracketsAfter(it, open));
          EncodeAppend(items, it);
        }
      }
    }
  }

  /** What reading on keeps, so that the result is a pattern `advance` can run. */
  ghost predicate Reading(t: seq<Byte>, eof: Byte, items: seq<Item>, nbra: nat, open: seq<nat>) {
    && WellFormed(items) && nbra <= NBRA && (forall i :: 0 <= i < |open| ==> open[i] < NBRA)
    && IsLine(t) && (Anchored(items) ==> t != [] && t[0] == eof)
  }

  lemma PieceOk(t: seq<Byte>, eof: Byte, nbra: nat, open: seq<nat>)
    requires t != [] && Reading(t, eof, [], nbra, open)
    ensures var p := NextPiece(t, eof, nbra, open);
      p.Some? ==>
        && ItemOk(p.value.it) && !p.value.it.Many?
        && (p.value.it.LineEnd? ==> p.value.size == 1 && |t| > 1 && t[1] == eof)
        && (p.value.it.Open? ==> nbra < NBRA)
  {
  }

  lemma {:induction false} ParseWellFormed(t: seq<Byte>, eof: Byte, items: seq<Item>, nbra: nat, open: seq<nat>)
    requires Reading(t, eof, items, nbra, open)
    ensures var r := Parse(t, eof, items, nbra, open); r.Some? ==> WellFormed(r.value)
    decreases |t|
  {
    if t != [] && t[0] != eof {
      if t[0] == ASTERISK {
        if items != [] {
          var n := |items| - 1;
          var last := items[n];
          if last.One? || last.Many? {
            ParseWellFormed(t[1..], eof, items[..n] + [Many(last.a)], nbra, open);
          }
        }
      } else {
        PieceOk(t, eof, nbra, open);
        var p := NextPiece(t, eof, nbra, open);
        if p.Some? {
          var it := p.value.it;
          assert t[p.value.size..] != [] || !it.LineEnd?;
          ParseWellFormed(t[p.value.size..], eof, items + [it], if it.Open? then nbra + 1 else nbra,
                          BracketsAfter(it, open));
        }
      }
    }
  }

  /** Whether `p` was written at `ep`, in front of `ep'`. */
  ghost predicate Written(buf: seq<nat>, ep: nat, ep': nat, code: seq<nat>) {
    ep' == ep + |code| && ep' <= |buf| && buf[ep..ep'] == code
  }

  lemma ClassWritten(buf: seq<nat>, ep0: nat, ep: nat, op: nat, chars: seq<Byte>)
    requires ep0 + 2 + |chars| == ep <= |buf| && buf[ep0] == op && buf[ep0 + 1] == 1 + |chars|
    requires buf[ep0 + 2..ep] == chars
    ensures Written(buf, ep0, ep, [op, 1 + |chars|] + chars)
  {
    assert buf[ep0..ep] == [buf[ep0], buf[ep0 + 1]] + buf[ep0 + 2..ep];
  }

  /** What a bracketed class is and its code, from where it ends. */
  lemma ClassPieceIs(t: seq<Byte>, start: nat)
    requires start == if |t| > 1 && t[1] == CARET then 2 else 1
    ensures start >= |t| || t[start] == NEWLINE || ClassEnd(t, start + 1).None? ==> ClassPiece(t).None?
    ensures start < |t| && t[start] != NEWLINE && ClassEnd(t, start + 1).Some? ==>
      var at := ClassEnd(t, start + 1).value;
      && start < at <= |t| && ClassPiece(t).Some? && ClassPiece(t).value.size == at + 1
      && Encode(ClassPiece(t).value.it) == [if start == 2 then NCCL else CCL, 1 + |t[start..at]|] + t[start..at]
  {
    hide ClassEnd;
  }

  class Editor {
    const expbuf: array<nat>
    var circfl: bool
    var loc1: nat
    var loc2: nat
    var braslist: map<nat, nat>
    var braelist: map<nat, nat>
    ghost var items: seq<Item>

    /** The buffer holds the code of a pattern. */
    ghost predicate Compiled()
      reads this, expbuf
    {
      expbuf.Length == ESIZE + 4 && WellFormed(items) && Distinct(items) && CodeAt(expbuf[..], 0, items, 0)
    }

    constructor ()
      ensures expbuf.Length == ESIZE + 4 && expbuf[0] == 0
    {
      expbuf := new nat[ESIZE + 4](_ => 0);
      circfl, loc1, loc2, items := false, 0, 0, [];
    }

    /** Copy the members of a class, the first of them unseen. */
    method CopyClass(t: seq<Byte>, start: nat, ep0: nat) returns (ok: bool, at: nat, ep: nat)
      requires expbuf.Length == ESIZE + 4 && ep0 <= ESIZE + 1 && start < |t|
      modifies expbuf
      ensures forall i :: 0 <= i < ep0 ==> expbuf[i] == old(expbuf[i])
      ensures start < at <= |t| && ep == ep0 + (at - start) && ep <= ESIZE + 2 && expbuf[ep0..ep] == t[start..at]
      ensures ok ==> ep < ESIZE && ClassEnd(t, start + 1) == Some(at)
      ensures !ok ==> ClassEnd(t, start + 1).None? || ep0 + (ClassEnd(t, start + 1).value - start) >= ESIZE
    {
      expbuf[ep0] := t[start];
      ep, at := ep0 + 1, start + 1;
      while ep < ESIZE && at < |t| && t[at] != RBRACKET && t[at] != NEWLINE
        invariant start < at <= |t| && ep == ep0 + (at - start) && ep <= ESIZE + 2
        invariant expbuf[ep0..ep] == t[start..at]
        invariant forall i :: 0 <= i < ep0 ==> expbuf[i] == old(expbuf[i])
        invariant ClassEnd(t, start + 1) == ClassEnd(t, at)
        decreases |t| - at
      {
        assert t[start..at + 1] == t[start..at] + [t[at]];
        expbuf[ep] := t[at];
        assert expbuf[ep0..ep + 1] == expbuf[ep0..ep] + [t[at]];
        ep, at := ep + 1, at + 1;
      }
      ok := ep < ESIZE && at < |t| && t[at] == RBRACKET;
    }

    /** The case of a bracketed class. */
    method EmitClass(t: seq<Byte>, ep0: nat) returns (ok: bool, size: nat, ep: nat)
      requires expbuf.Length == ESIZE + 4 && ep0 < ESIZE && t != []
      modifies expbuf
      ensures forall i :: 0 <= i < ep0 ==> expbuf[i] == old(expbuf[i])
      ensures ok ==>
        && ClassPiece(t).Some? && size == ClassPiece(t).value.size
        && Written(expbuf[..], ep0, ep, Encode(ClassPiece(t).value.it)) && ep < ESIZE
      ensures !ok ==> ClassPiece(t).None? || ep0 + |Encode(ClassPiece(t).value.it)| >= ESIZE
    {
      hide ClassEnd, ClassPiece, Encode, Written;
      expbuf[ep0], expbuf[ep0 + 1] := CCL, 0;
      var start, at := 1, 0;
      if |t| > 1 && t[1] == CARET {
        start := 2;
        expbuf[ep0] := NCCL;
      }
      ClassPieceIs(t, start);
      size, ep := 0, ep0 + 2;
      if start >= |t| || t[start] == NEWLINE {
        return false, size, ep;
      }
      ok, at, ep := CopyClass(t, start, ep0 + 2);
      size := at + 1;
      if ok {
        ghost var copied := expbuf[ep0 + 2..ep];
        expbuf[ep0 + 1] := 1 + (at - start);
        assert expbuf[ep0 + 2..ep] == copied;
        ClassWritten(expbuf[..], ep0, ep, expbuf[ep0], t[start..at]);
      }
    }

    /** One round of the loop of `compile` on anything but a star. */
    method Emit(t: seq<Byte>, eof: Byte, ep0: nat, nbra: nat, open: seq<nat>) returns (ok: bool, size: nat, ep: nat)
      requires expbuf.Length == ESIZE + 4 && ep0 < ESIZE && t != []
      modifies expbuf
      ensures forall i :: 0 <= i < ep0 ==> expbuf[i] == old(expbuf[i])
      ensures var p := NextPiece(t, eof, nbra, open);
        && (ok ==>
              p.Some? && size == p.value.size && Written(expbuf[..], ep0, ep, Encode(p.value.it)) && ep <= ESIZE + 1)
        && (!ok ==> p.None? || ep0 + |Encode(p.value.it)| >= ESIZE)
    {
      var c := t[0];
      size, ep := 1, ep0;
      if c == BACKSLASH {
        if |t| < 2 || t[1] == NEWLINE {
          return false, size, ep;
        }
        size, ep := 2, ep + 2;
        if t[1] == LPAREN {
          if nbra >= NBRA {
            return false, size, ep;
          }
          expbuf[ep0], expbuf[ep0 + 1] := CBRA, nbra;
        } else if t[1] == RPAREN {
          if open == [] {
            return false, size, ep;
          }
          expbuf[ep0], expbuf[ep0 + 1] := CKET, open[|open| - 1];
        } else {
          expbuf[ep0], expbuf[ep0 + 1] := CCHR, t[1];
        }
      } else if c == PERIOD {
        expbuf[ep0] := CDOT;
        ep := ep + 1;
      } else if c == NEWLINE {
        return false, size, ep;
      } else if c == DOLLAR && |t| < 2 {
        return false, size, ep;
      } else if c == DOLLAR && t[1] == eof {
        expbuf[ep0] := CDOL;
        ep := ep + 1;
      } else if c == LBRACKET {
        ok, size, ep := EmitClass(t, ep0);
        return;
      } else {
        expbuf[ep0], expbuf[ep0 + 1] := CCHR, c;
        ep := ep + 2;
      }
      ok := true;
    }

    /**
     * `execute` in its non-global form, on the line of an address (`zero` for line 0): succeeds
     * exactly when some part of the line matches, at the line start if the pattern began with `^`,
     * and then `loc1` is the leftmost place where one starts and `loc1 .. loc2` is one.
     */
    method Execute(line: seq<Byte>, zero: bool) returns (found: bool, ghost cuts: seq<nat>)
      requires Compiled() && IsLine(line)
      modifies this`loc1, this`loc2, this`braslist, this`braelist
      ensures found <==> !zero && exists i: nat, j: nat :: Matches(items, line, i, j) && (circfl ==> i == 0)
      ensures found ==> Matches(items, line, loc1, loc2) && (circfl ==> loc1 == 0)
      ensures found && !circfl ==> forall i: nat, j: nat :: i < loc1 ==> !Matches(items, line, i, j)
      ensures found ==> Passed(items, 0, |items|, line, loc1, loc2, cuts, braslist, braelist)
    {
      hide CodeAt, Matches, WellFormed, Passed, Kept, Distinct;
      cuts := [];
      if zero {
        return false, cuts;
      }
      var m := new Matcher(expbuf[..], line, braslist, braelist);
      assert items[0..] == items;
      if circfl {
        loc1 := 0;
        found, cuts := m.Advance(0, 0, items, 0);
        loc2, braslist, braelist := m.loc2, m.braslist, m.braelist;
        assert forall j: nat :: Matches(items[0..], line, 0, j) <==> Matches(items, line, 0, j);
        return;
      }
      var p1 := 0;
      var fast := expbuf[0] == CCHR;
      while p1 <= |line|
        invariant 0 <= p1 <= |line| + 1 && m.code == expbuf[..] && m.line == line
        invariant forall i: nat, j: nat :: i < p1 ==> !Matches(items, line, i, j)
      {
        if fast && CharAt(line, p1) != expbuf[1] {
          FirstCharDiffers(expbuf[..], items, line, p1);
        } else {
          found, cuts := m.Advance(p1, 0, items, 0);
          braslist, braelist := m.braslist, m.braelist;
          assert items[0..] == items;
          if found {
            loc1, loc2 := p1, m.loc2;
            assert Matches(items, line, loc1, loc2) && !zero && !circfl;
            return;
          }
        }
        p1 := p1 + 1;
      }
      forall i: nat, j: nat | i > |line| ensures !Matches(items, line, i, j) {
        BeyondLine(items, line, i, j);
      }
      found := false;
    }

    /** The star case: set the star bit of the last operator. */
    method AddStar(lastep: nat, ep: nat, ghost its: seq<Item>) returns (ok: bool, ghost its': seq<Item>)
      requires its != [] && expbuf.Length == ESIZE + 4 && !its[|its| - 1].LineEnd?
      requires Written(expbuf[..], 0, ep, EncodeAll(its)) && lastep == |EncodeAll(its[..|its| - 1])|
      modifies expbuf
      ensures var n := |its| - 1;
        && (ok <==> its[n].One? || its[n].Many?)
        && (ok ==> its' == its[..n] + [Many(its[n].a)])
      ensures ok ==> Written(expbuf[..], 0, ep, EncodeAll(its'))
    {
      hide EncodeAll;
      ghost var n := |its| - 1;
      LastOperator(expbuf[..], ep, its);
      if expbuf[lastep] == CBRA || expbuf[lastep] == CKET {
        return false, its;
      }
      StarSet(expbuf[..], ep, its);
      its' := its[..n] + [Many(its[n].a)];
      expbuf[lastep] := expbuf[lastep] / 2 * 2 + STAR;
      ok := true;
    }

    /** `compile`: succeeds exactly on patterns that parse and whose code fits, and leaves that code. */
    method Compile(input: seq<Byte>, eof: Byte) returns (ok: bool)
      requires expbuf.Length == ESIZE + 4 && IsLine(input)
      modifies this, expbuf
      ensures input != [] && input[0] == eof ==>
        expbuf[..] == old(expbuf[..]) && circfl == old(circfl) && items == old(items) && (ok <==> expbuf[0] != 0)
      ensures input != [] && input[0] != eof ==>
        var circ := input[0] == CARET;
        var r := ParsePattern(if circ then input[1..] else input, eof);
        && (ok <==> r.Some? && |EncodeAll(r.value)| < ESIZE)
        && (ok ==> Compiled() && items == r.value && circfl == circ)
    {
      if input == [] {
        return false;
      }
      if input[0] == eof {
        return expbuf[0] != 0;
      }
      circfl := input[0] == CARET;
      var t := if circfl then input[1..] else input;
      AcceptedIsPattern(t, eof);
      var ep;
      ok, ep, items := CompileItems(t, eof);
      if ok {
        expbuf[ep] := CEOF;
        NumberedDistinct(items, 0, []);
        assert items[0..] == items;
        assert expbuf[..ep] == EncodeAll(items);
        assert EncodeAll(items) + [CEOF] <= expbuf[0..];
      } else {
        expbuf[0] := 0;
      }
    }

    /** The loop of `compile`. */
    method CompileItems(t: seq<Byte>, eof: Byte) returns (ok: bool, ep: nat, ghost its: seq<Item>)
      requires expbuf.Length == ESIZE + 4 && IsLine(t)
      modifies expbuf
      ensures var r := ParsePattern(t, eof);
        && (ok <==> r.Some? && |EncodeAll(r.value)| < ESIZE)
        && (ok ==> its == r.value && ep < ESIZE && Written(expbuf[..], 0, ep, EncodeAll(its)))
    {
      hide NextPiece, Encode, EncodeAll, Parse, Reading, Written;
      ParseBase(t, eof, [], 0, []);
      ReadingStart(t, eof, expbuf[..]);
      var pos, nbra, open, lastep := 0, 0, [], 0;
      ep, its := 0, [];
      if t != [] && t[0] == ASTERISK {
        return false, ep, its;
      }
      assert t[0..] == t;
      while true
        invariant 0 <= pos <= |t| && Parse(t, eof, [], 0, []) == Parse(t[pos..], eof, its, nbra, open)
        invariant Reading(t[pos..], eof, its, nbra, open)
        invariant ep <= ESIZE + 1 && Written(expbuf[..], 0, ep, EncodeAll(its))
        invariant its != [] ==> lastep == |EncodeAll(its[..|its| - 1])|
        invariant its == [] ==> pos == 0
        decreases |t| - pos
      {
        ghost var rest := t[pos..];
        ParseGrows(rest, eof, its, nbra, open);
        ParseBase(rest, eof, its, nbra, open);
        WrittenLength(expbuf[..], 0, ep, EncodeAll(its));
        if ep >= ESIZE || pos >= |t| {
          return false, ep, its;
        }
        var c := t[pos];
        if c == eof {
          return true, ep, its;
        }
        if c == ASTERISK {
          assert t[pos + 1..] == rest[1..];
          StarRead(rest, eof, its, nbra, open);
          ok, its := AddStar(lastep, ep, its);
          if !ok {
            return;
          }
          pos := pos + 1;
        } else {
          lastep := ep;
          var size, ep';
          ghost var before := expbuf[..];
          ok, size, ep' := Emit(t[pos..], eof, ep, nbra, open);
          if !ok {
            PieceTooLong(rest, eof, its, nbra, open);
            return;
          }
          PieceRead(rest, eof, its, nbra, open);
          ghost var it := NextPiece(rest, eof, nbra, open).value.it;
          AppendWritten(before, expbuf[..], ep, ep', its, it);
          assert (its + [it])[..|its|] == its;
          if c == BACKSLASH && t[pos + 1] == LPAREN {
            open, nbra := open + [nbra], nbra + 1;
          } else if c == BACKSLASH && t[pos + 1] == RPAREN {
            open := open[..|open| - 1];
          }
          assert t[pos + size..] == rest[size..];
          its, ep, pos := its + [it], ep', pos + size;
        }
      }
      assert false;
    }
  }

  lemma ParseBase(t: seq<Byte>, eof: Byte, its: seq<Item>, nbra: nat, open: seq<nat>)
    ensures t == [] ==> Parse(t, eof, its, nbra, open) == None
    ensures t != [] && t[0] == eof ==> Parse(t, eof, its, nbra, open) == Some(its)
    ensures t != [] && t[0] == ASTERISK && t[0] != eof && its == [] ==> Parse(t, eof, its, nbra, open) == None
  {
  }

  lemma ReadingStart(t: seq<Byte>, eof: Byte, buf: seq<nat>)
    requires IsLine(t)
    ensures Reading(t, eof, [], 0, []) && Written(buf, 0, 0, EncodeAll([]))
  {
  }

  lemma WrittenLength(buf: seq<nat>, ep: nat, ep': nat, code: seq<nat>)
    requires Written(buf, ep, ep', code)
    ensures ep' == ep + |code|
  {
  }

  lemma BeyondLine(items: seq<Item>, line: seq<Byte>, i: nat, j: nat)
    requires i > |line|
    ensures !Matches(items, line, i, j)
  {
  }

  /** The fast path: a pattern that begins with a literal matches nowhere that literal is not. */
  lemma FirstCharDiffers(code: seq<nat>, items: seq<Item>, line: seq<Byte>, i: nat)
    requires
      && CodeAt(code, 0, items, 0) && WellFormed(items) && |code| > 1 && code[0] == CCHR && i <= |line|
      && CharAt(line, i) != code[1]
    ensures forall j: nat :: !Matches(items, line, i, j)
  {
    CodeHere(code, 0, items, 0);
    OpTells(code, 0, items, 0);
    assert items[0..] == items;
    var seg := code[0..0 + |Encode(items[0])|];
    assert seg[0] == code[0] && seg[1] == code[1];
    forall j: nat ensures !Matches(items, line, i, j) {
      StepOne(items, 0, line, i, j);
    }
  }

  /** What stands at the place of the last operator. */
  lemma LastOperator(buf: seq<nat>, ep: nat, its: seq<Item>)
    requires its != [] && Written(buf, 0, ep, EncodeAll(its))
    ensures var n := |its| - 1; var at := |EncodeAll(its[..n])|;
      at < ep && buf[at] == Encode(its[n])[0]
  {
    var n := |its| - 1;
    assert its == its[..n] + [its[n]];
    EncodeAppend(its[..n], its[n]);
    var e := EncodeAll(its[..n]);
    assert buf[..ep][|e|] == (e + Encode(its[n]))[|e|];
  }

  lemma StarSet(buf: seq<nat>, ep: nat, its: seq<Item>)
    requires its != [] && Written(buf, 0, ep, EncodeAll(its)) && (its[|its| - 1].One? || its[|its| - 1].Many?)
    ensures var n := |its| - 1; var at := |EncodeAll(its[..n])|;
      at < ep && Written(buf[at := buf[at] / 2 * 2 + STAR], 0, ep, EncodeAll(its[..n] + [Many(its[n].a)]))
  {
    hide Encode, EncodeAll;
    var n := |its| - 1;
    LastOperator(buf, ep, its);
    assert its == its[..n] + [its[n]];
    EncodeAppend(its[..n], its[n]);
    EncodeAppend(its[..n], Many(its[n].a));
    StarredOp(its[n]);
    UpdateTail(EncodeAll(its[..n]), Encode(its[n]), Encode(its[n])[0] / 2 * 2 + STAR);
    UpdateHead(buf, ep, |EncodeAll(its[..n])|, Encode(its[n])[0] / 2 * 2 + STAR);
  }

  lemma StarredOp(it: Item)
    requires it.One? || it.Many?
    ensures Encode(Many(it.a)) == Encode(it)[0 := Encode(it)[0] / 2 * 2 + STAR]
  {
  }

  lemma UpdateTail(e: seq<nat>, t: seq<nat>, v: nat)
    requires t != []
    ensures e + t[0 := v] == (e + t)[|e| := v]
  {
  }

  lemma UpdateHead(buf: seq<nat>, ep: nat, at: nat, v: nat)
    requires at < ep <= |buf|
    ensures buf[at := v][0..ep] == buf[0..ep][at := v]
  {
  }

  /** Reading a star behind at least one item. */
  lemma StarRead(t: seq<Byte>, eof: Byte, its: seq<Item>, nbra: nat, open: seq<nat>)
    requires Reading(t, eof, its, nbra, open) && t != [] && t[0] == ASTERISK && t[0] != eof && its != []
    ensures !its[|its| - 1].LineEnd?
    ensures var n := |its| - 1; var last := its[n];
      if last.One? || last.Many? then
        Parse(t, eof, its, nbra, open) == Parse(t[1..], eof, its[..n] + [Many(last.a)], nbra, open)
        && Reading(t[1..], eof, its[..n] + [Many(last.a)], nbra, open)
      else Parse(t, eof, its, nbra, open) == None
  {
  }

  lemma PieceRead(t: seq<Byte>, eof: Byte, its: seq<Item>, nbra: nat, open: seq<nat>)
    requires Reading(t, eof, its, nbra, open) && t != [] && t[0] != ASTERISK && t[0] != eof
    requires NextPiece(t, eof, nbra, open).Some?
    ensures var p := NextPiece(t, eof, nbra, open).value; var it := p.it;
      && 1 <= p.size <= |t|
      && (it.Open? <==> t[0] == BACKSLASH && |t| > 1 && t[1] == LPAREN) && (it.Open? ==> it.n == nbra)
      && (it.Close? <==> t[0] == BACKSLASH && |t| > 1 && t[1] == RPAREN) && (it.Close? ==> open != [])
      && (t[0] == BACKSLASH ==> |t| > 1)
      && Parse(t, eof, its, nbra, open)
        == Parse(t[p.size..], eof, its + [it], if it.Open? then nbra + 1 else nbra, BracketsAfter(it, open))
      && Reading(t[p.size..], eof, its + [it], if it.Open? then nbra + 1 else nbra, BracketsAfter(it, open))
  {
    PieceOk(t, eof, nbra, open);
  }

  lemma PieceTooLong(t: seq<Byte>, eof: Byte, its: seq<Item>, nbra: nat, open: seq<nat>)
    requires t != [] && t[0] != ASTERISK && t[0] != eof
    requires var p := NextPiece(t, eof, nbra, open); p.None? || |EncodeAll(its)| + |Encode(p.value.it)| >= ESIZE
    ensures var r := Parse(t, eof, its, nbra, open); r.Some? ==> |EncodeAll(r.value)| >= ESIZE
  {
    var p := NextPiece(t, eof, nbra, open);
    if p.Some? {
      var it := p.value.it;
      EncodeAppend(its, it);
      ParseGrows(t[p.value.size..], eof, its + [it], if it.Open? then nbra + 1 else nbra, BracketsAfter(it, open));
    }
  }

  lemma AppendWritten(buf: seq<nat>, buf': seq<nat>, ep: nat, ep': nat, its: seq<Item>, it: Item)
    requires Written(buf, 0, ep, EncodeAll(its)) && |buf'| == |buf| && (forall i :: 0 <= i < ep ==> buf'[i] == buf[i])
    requires Written(buf', ep, ep', Encode(it))
    ensures Written(buf', 0, ep', EncodeAll(its + [it]))
  {
    EncodeAppend(its, it);
    assert buf'[..ep'] == buf'[..ep] + buf'[ep..ep'];
    assert buf'[..ep] == buf[..ep];
  }

  // ------------------------------------------------------------------- round trip

  /** One way to write a pattern down: every literal escaped, except where that gives it another meaning. */
  function Print(items: seq<Item>): seq<Byte> {
    if items == [] then [] else PrintItem(items[0]) + Print(items[1..])
  }

  function PrintItem(it: Item): seq<Byte> {
    match it
    case One(a) => PrintAtom(a)
    case Many(a) => PrintAtom(a) + [ASTERISK]
    case Open(_) => [BACKSLASH, LPAREN]
    case Close(_) => [BACKSLASH, RPAREN]
    case LineEnd => [DOLLAR]
  }

  function PrintAtom(a: Atom): seq<Byte> {
    match a
    case Lit(c) => if c == LPAREN || c == RPAREN then [c] else [BACKSLASH, c]
    case Any => [PERIOD]
    case Set(negated, chars) => [LBRACKET] + (if negated then [CARET] else []) + chars + [RBRACKET]
  }

  /** Items that can be written: no newline, and a class whose first `]` or `^` is not taken for something else. */
  predicate Printable(it: Item) {
    it.One? || it.Many? ==> PrintableAtom(it.a)
  }

  predicate PrintableAtom(a: Atom) {
    match a
    case Lit(c) => c != NEWLINE
    case Any => true
    case Set(negated, chars) =>
      && chars != [] && (forall i :: 0 <= i < |chars| ==> chars[i] != NEWLINE)
      && (forall i :: 1 <= i < |chars| ==> chars[i] != RBRACKET)
      && (!negated ==> chars[0] != CARET)
  }

  /** Each opening bracket has the next number, each closing one that of the innermost open bracket. */
  predicate Numbered(items: seq<Item>, nbra: nat, open: seq<nat>) {
    if items == [] then true
    else
      var it := items[0];
      && (it.Open? ==> it.n == nbra && nbra < NBRA) && (it.Close? ==> open != [] && it.n == open[|open| - 1])
      && Numbered(items[1..], if it.Open? then nbra + 1 else nbra, BracketsAfter(it, open))
  }

  /** Numbering keeps brackets apart: what comes is newer than `nbra` or closes one that is open. */
  lemma {:induction false} NumberedFrom(items: seq<Item>, nbra: nat, open: seq<nat>, t: nat)
    requires Numbered(items, nbra, open) && t < |items| && Fresh(nbra, open)
    ensures items[t].Open? ==> items[t].n >= nbra
    ensures items[t].Close? ==> items[t].n >= nbra || items[t].n in open
  {
    if t > 0 {
      FreshNext(items[0], nbra, open);
      NumberedFrom(items[1..], if items[0].Open? then nbra + 1 else nbra, BracketsAfter(items[0], open), t - 1);
    }
  }

  /** The open brackets have different numbers below `nbra`. */
  predicate Fresh(nbra: nat, open: seq<nat>) {
    (forall i :: 0 <= i < |open| ==> open[i] < nbra) && forall i, j :: 0 <= i < j < |open| ==> open[i] != open[j]
  }

  lemma FreshNext(it: Item, nbra: nat, open: seq<nat>)
    requires Fresh(nbra, open) && (it.Open? ==> it.n == nbra) && (it.Close? ==> open != [] && it.n == open[|open| - 1])
    ensures Fresh(if it.Open? then nbra + 1 else nbra, BracketsAfter(it, open))
    ensures it.Close? ==> it.n !in BracketsAfter(it, open) && it.n < nbra
    ensures forall n :: n in BracketsAfter(it, open) ==> n in open || n >= nbra
  {
  }

  lemma HeadApart(items: seq<Item>, nbra: nat, open: seq<nat>, t: nat)
    requires Numbered(items, nbra, open) && Fresh(nbra, open) && 0 < t < |items| && (items[0].Open? || items[0].Close?)
    ensures items[0] != items[t]
  {
    hide Fresh, BracketsAfter;
    FreshNext(items[0], nbra, open);
    NumberedFrom(items[1..], if items[0].Open? then nbra + 1 else nbra, BracketsAfter(items[0], open), t - 1);
    assert items[t] == items[1..][t - 1];
  }

  lemma {:induction false} NumberedDistinct(items: seq<Item>, nbra: nat, open: seq<nat>)
    requires Numbered(items, nbra, open) && Fresh(nbra, open)
    ensures Distinct(items)
  {
    hide Fresh, BracketsAfter, Distinct;
    if items != [] {
      FreshNext(items[0], nbra, open);
      NumberedDistinct(items[1..], if items[0].Open? then nbra + 1 else nbra, BracketsAfter(items[0], open));
      forall t | 0 < t < |items| && (items[0].Open? || items[0].Close?) ensures items[0] != items[t] {
        HeadApart(items, nbra, open, t);
      }
      DistinctCons(items);
    } else {
      DistinctCons(items);
    }
  }

  lemma DistinctCons(items: seq<Item>)
    requires items != [] ==> Distinct(items[1..])
    requires forall t :: 0 < t < |items| && (items[0].Open? || items[0].Close?) ==> items[0] != items[t]
    ensures Distinct(items)
  {
    forall s, t | 0 < s < t < |items| && (items[s].Open? || items[s].Close?) ensures items[s] != items[t] {
      assert items[s] == items[1..][s - 1] && items[t] == items[1..][t - 1];
    }
  }

  /** A delimiter that is none of the special characters, such as `/` or `?`. */
  predicate IsDelimiter(eof: Byte) {
    eof !in [BACKSLASH, PERIOD, LBRACKET, DOLLAR, ASTERISK, LPAREN, RPAREN]
  }

  lemma {:induction false} ClassEndAt(t: seq<Byte>, e: nat, n: nat)
    requires e <= n < |t| && t[n] == RBRACKET && forall i :: e <= i < n ==> t[i] != RBRACKET && t[i] != NEWLINE
    ensures ClassEnd(t, e) == Some(n)
    decreases n - e
  {
    if e < n {
      ClassEndAt(t, e + 1, n);
    }
  }

  lemma Middle(p: seq<Byte>, m: seq<Byte>, q: seq<Byte>, tail: seq<Byte>)
    ensures (p + m + q + tail)[|p|..|p| + |m|] == m
    ensures q != [] ==> (p + m + q + tail)[|p| + |m|] == q[0]
  {
  }

  lemma ClassReadBack(a: Atom, tail: seq<Byte>)
    requires a.Set? && PrintableAtom(a)
    ensures ClassPiece(PrintAtom(a) + tail) == Some(Piece(One(a), |PrintAtom(a)|))
  {
    var t := PrintAtom(a) + tail;
    var start := if a.negated then 2 else 1;
    Middle([LBRACKET] + (if a.negated then [CARET] else []), a.chars, [RBRACKET], tail);
    MiddleEnds(t, start, a.chars);
  }

  lemma MiddleEnds(t: seq<Byte>, start: nat, m: seq<Byte>)
    requires m != [] && start + |m| < |t| && t[start..start + |m|] == m && t[start + |m|] == RBRACKET
    requires forall i :: 1 <= i < |m| ==> m[i] != RBRACKET && m[i] != NEWLINE
    ensures t[start] == m[0] && ClassEnd(t, start + 1) == Some(start + |m|)
  {
    var s := t[start..start + |m|];
    assert s[0] == t[start];
    forall i | start + 1 <= i < start + |m| ensures t[i] != RBRACKET && t[i] != NEWLINE {
      assert s[i - start] == t[i];
    }
    ClassEndAt(t, start + 1, start + |m|);
  }

  lemma AtomReadBack(a: Atom, tail: seq<Byte>, eof: Byte, nbra: nat, open: seq<nat>)
    requires PrintableAtom(a)
    ensures NextPiece(PrintAtom(a) + tail, eof, nbra, open) == Some(Piece(One(a), |PrintAtom(a)|))
  {
    if a.Set? {
      ClassReadBack(a, tail);
    }
  }

  /** Reading an atom that is written in front of `tail`. */
  lemma AtomParsed(a: Atom, tail: seq<Byte>, eof: Byte, its: seq<Item>, nbra: nat, open: seq<nat>)
    requires PrintableAtom(a) && IsDelimiter(eof)
    ensures Parse(PrintAtom(a) + tail, eof, its, nbra, open) == Parse(tail, eof, its + [One(a)], nbra, open)
  {
    AtomReadBack(a, tail, eof, nbra, open);
    var t := PrintAtom(a) + tail;
    assert t[|PrintAtom(a)|..] == tail;
    assert t[0] == PrintAtom(a)[0];
  }

  lemma ItemParsed(it: Item, tail: seq<Byte>, eof: Byte, its: seq<Item>, nbra: nat, open: seq<nat>)
    requires Printable(it) && IsDelimiter(eof) && Numbered([it], nbra, open)
    requires it.LineEnd? ==> tail != [] && tail[0] == eof
    ensures Parse(PrintItem(it) + tail, eof, its, nbra, open)
         == Parse(tail, eof, its + [it], if it.Open? then nbra + 1 else nbra, BracketsAfter(it, open))
  {
    if it.One? {
      AtomParsed(it.a, tail, eof, its, nbra, open);
    } else if it.Many? {
      assert PrintItem(it) + tail == PrintAtom(it.a) + ([ASTERISK] + tail);
      AtomParsed(it.a, [ASTERISK] + tail, eof, its, nbra, open);
      StarParsed(it.a, tail, eof, its, nbra, open);
    } else {
      var t := PrintItem(it) + tail;
      assert t[|PrintItem(it)|..] == tail;
    }
  }

  lemma StarParsed(a: Atom, tail: seq<Byte>, eof: Byte, its: seq<Item>, nbra: nat, open: seq<nat>)
    requires IsDelimiter(eof)
    ensures Parse([ASTERISK] + tail, eof, its + [One(a)], nbra, open) == Parse(tail, eof, its + [Many(a)], nbra, open)
  {
    var t, more := [ASTERISK] + tail, its + [One(a)];
    assert t[1..] == tail && more[..|its|] == its;
  }

  lemma EndParsed(eof: Byte, its: seq<Item>, nbra: nat, open: seq<nat>)
    ensures [] + [eof] == [eof] && Parse([eof], eof, its, nbra, open) == Some(its)
  {
  }

  /** Every printable pattern is read back from its text, so every pattern can be compiled. */
  lemma {:induction false} ReadBack(items: seq<Item>, eof: Byte, its: seq<Item>, nbra: nat, open: seq<nat>)
    requires IsDelimiter(eof) && Numbered(items, nbra, open)
    requires forall i :: 0 <= i < |items| ==> Printable(items[i]) && (items[i].LineEnd? ==> i == |items| - 1)
    ensures Parse(Print(items) + [eof], eof, its, nbra, open) == Some(its + items)
    decreases items
  {
    hide Parse, PrintItem, Printable, IsDelimiter;
    if items == [] {
      EndParsed(eof, its, nbra, open);
      assert its + items == its;
    } else {
      var it, rest := items[0], items[1..];
      var tail := Print(rest) + [eof];
      assert Print(items) + [eof] == PrintItem(it) + tail;
      assert Numbered([it], nbra, open);
      assert it.LineEnd? ==> rest == [] && tail == [eof];
      ItemParsed(it, tail, eof, its, nbra, open);
      ReadBack(rest, eof, its + [it], if it.Open? then nbra + 1 else nbra, BracketsAfter(it, open));
      assert its + [it] + rest == its + items;
    }
  }

  /** The text of a whole pattern, with its anchor and its closing delimiter. */
  function PatternText(circ: bool, items: seq<Item>, eof: Byte): seq<Byte> {
    (if circ then [CARET] else []) + Print(items) + [eof]
  }

  /** What `compile` sees of it: not the empty pattern, the right anchor, and exactly these items. */
  lemma PatternReadBack(circ: bool, items: seq<Item>, eof: Byte)
    requires IsDelimiter(eof) && eof != CARET && (circ || items != []) && Numbered(items, 0, [])
    requires forall i :: 0 <= i < |items| ==> Printable(items[i]) && (items[i].LineEnd? ==> i == |items| - 1)
    ensures var t := PatternText(circ, items, eof);
      && t != [] && t[0] != eof && (t[0] == CARET <==> circ)
      && ParsePattern(if circ then t[1..] else t, eof) == Some(items)
  {
    hide Parse, Print, IsDelimiter, Printable, Numbered;
    var t := PatternText(circ, items, eof);
    ReadBack(items, eof, [], 0, []);
    assert [] + items == items;
    if items != [] {
      PrintStarts(items);
    } else {
      NoStarDelimiter(eof);
    }
    if circ {
      assert t[1..] == Print(items) + [eof];
    } else {
      assert t == Print(items) + [eof];
      assert t[0] == Print(items)[0];
      DelimiterIsNot(eof, t[0]);
    }
  }

  lemma NoStarDelimiter(eof: Byte)
    requires IsDelimiter(eof)
    ensures Print([]) == [] && eof != ASTERISK
  {
  }

  lemma PrintStarts(items: seq<Item>)
    requires items != []
    ensures Print(items) != [] && Print(items)[0] in [BACKSLASH, PERIOD, LBRACKET, DOLLAR, LPAREN, RPAREN]
  {
    hide Print;
    assert Print(items) == PrintItem(items[0]) + Print(items[1..]) by {
      PrintFirst(items);
    }
  }

  lemma PrintFirst(items: seq<Item>)
    requires items != []
    ensures Print(items) == PrintItem(items[0]) + Print(items[1..])
  {
  }

  lemma DelimiterIsNot(eof: Byte, c: Byte)
    requires IsDelimiter(eof) && c in [BACKSLASH, PERIOD, LBRACKET, DOLLAR, LPAREN, RPAREN]
    ensures c != eof && c != CARET
  {
  }

  // ------------------------------------------------ what is read can be written and read again

  function NbraAfter(items: seq<Item>, nbra: nat): nat {
    if items == [] then nbra else NbraAfter(items[1..], if items[0].Open? then nbra + 1 else nbra)
  }

  function OpenAfter(items: seq<Item>, open: seq<nat>): seq<nat> {
    if items == [] then open else OpenAfter(items[1..], BracketsAfter(items[0], open))
  }

  lemma {:induction false} NumberedAppend(items: seq<Item>, it: Item, nbra: nat, open: seq<nat>)
    ensures Numbered(items + [it], nbra, open) <==>
      Numbered(items, nbra, open) && Numbered([it], NbraAfter(items, nbra), OpenAfter(items, open))
    ensures NbraAfter(items + [it], nbra) == if it.Open? then NbraAfter(items, nbra) + 1 else NbraAfter(items, nbra)
    ensures OpenAfter(items + [it], open) == BracketsAfter(it, OpenAfter(items, open))
    decreases |items|
  {
    if items == [] {
      assert [] + [it] == [it] && [it][1..] == [];
    } else {
      var first := items[0];
      assert (items + [it])[1..] == items[1..] + [it];
      NumberedAppend(items[1..], it, if first.Open? then nbra + 1 else nbra, BracketsAfter(first, open));
    }
  }

  /** What has been read so far is numbered, and says how many brackets there are and which are open. */
  ghost predicate Counted(items: seq<Item>, nbra: nat, open: seq<nat>) {
    && Numbered(items, 0, []) && nbra == NbraAfter(items, 0) && open == OpenAfter(items, [])
    && (forall i :: 0 <= i < |items| ==> Printable(items[i]))
  }

  lemma CountedMore(items: seq<Item>, it: Item, nbra: nat, open: seq<nat>)
    requires Counted(items, nbra, open) && Numbered([it], nbra, open) && Printable(it)
    ensures Counted(items + [it], if it.Open? then nbra + 1 else nbra, BracketsAfter(it, open))
  {
    hide Numbered, NbraAfter, OpenAfter, Printable;
    NumberedAppend(items, it, 0, []);
  }

  lemma CountedStar(items: seq<Item>, nbra: nat, open: seq<nat>)
    requires Counted(items, nbra, open) && items != [] && (items[|items| - 1].One? || items[|items| - 1].Many?)
    ensures Counted(items[..|items| - 1] + [Many(items[|items| - 1].a)], nbra, open)
  {
    hide NbraAfter, OpenAfter;
    var n := |items| - 1;
    assert items == items[..n] + [items[n]];
    NumberedAppend(items[..n], items[n], 0, []);
    NumberedAppend(items[..n], Many(items[n].a), 0, []);
  }

  lemma {:induction false} ClassEndIs(t: seq<Byte>, e: nat)
    ensures ClassEnd(t, e).Some? ==> forall i :: e <= i < ClassEnd(t, e).value ==> t[i] != RBRACKET && t[i] != NEWLINE
    decreases |t| - e
  {
    if e < |t| && t[e] != NEWLINE && t[e] != RBRACKET {
      ClassEndIs(t, e + 1);
    }
  }

  lemma ClassPrints(t: seq<Byte>)
    requires ClassPiece(t).Some?
    ensures ClassPiece(t).value.it.One? && PrintableAtom(ClassPiece(t).value.it.a)
  {
    hide ClassEnd;
    var start := if |t| > 1 && t[1] == CARET then 2 else 1;
    var at := ClassEnd(t, start + 1).value;
    ClassEndIs(t, start + 1);
    var chars := t[start..at];
    forall i | 0 <= i < |chars| ensures chars[i] != NEWLINE && (i >= 1 ==> chars[i] != RBRACKET) {
      assert chars[i] == t[start + i];
    }
  }

  /** Every element that is read carries its right number and can be written. */
  lemma PiecePrints(t: seq<Byte>, eof: Byte, nbra: nat, open: seq<nat>)
    requires t != []
    ensures var p := NextPiece(t, eof, nbra, open);
      p.Some? ==> Numbered([p.value.it], nbra, open) && Printable(p.value.it)
  {
    hide ClassPiece;
    var p := NextPiece(t, eof, nbra, open);
    if p.Some? && t[0] == LBRACKET {
      ClassPrints(t);
    }
  }

  lemma {:induction false} ParseCounted(t: seq<Byte>, eof: Byte, items: seq<Item>, nbra: nat, open: seq<nat>)
    requires Counted(items, nbra, open)
    ensures var r := Parse(t, eof, items, nbra, open);
      r.Some? ==> Numbered(r.value, 0, []) && forall i :: 0 <= i < |r.value| ==> Printable(r.value[i])
    decreases |t|
  {
    hide Counted, Numbered, Printable, NextPiece, BracketsAfter;
    CountedIs(items, nbra, open);
    if t != [] && t[0] != eof {
      if t[0] == ASTERISK {
        if items != [] {
          var n := |items| - 1;
          if items[n].One? || items[n].Many? {
            CountedStar(items, nbra, open);
            ParseCounted(t[1..], eof, items[..n] + [Many(items[n].a)], nbra, open);
          }
        }
      } else {
        var p := NextPiece(t, eof, nbra, open);
        if p.Some? {
          var it := p.value.it;
          PiecePrints(t, eof, nbra, open);
          CountedMore(items, it, nbra, open);
          ParseCounted(t[p.value.size..], eof, items + [it], if it.Open? then nbra + 1 else nbra,
                       BracketsAfter(it, open));
        }
      }
    }
  }

  lemma CountedIs(items: seq<Item>, nbra: nat, open: seq<nat>)
    requires Counted(items, nbra, open)
    ensures Numbered(items, 0, []) && forall i :: 0 <= i < |items| ==> Printable(items[i])
  {
  }

  /**
   * Whatever is accepted is a pattern: brackets nest and are numbered in order, `$` comes only at the end.
   * Writing it out and reading that gives it back.
   */
  lemma AcceptedIsPattern(t: seq<Byte>, eof: Byte)
    requires IsLine(t)
    ensures var r := Parse(t, eof, [], 0, []);
      r.Some? ==>
        && WellFormed(r.value) && Numbered(r.value, 0, [])
        && (IsDelimiter(eof) ==> Parse(Print(r.value) + [eof], eof, [], 0, []) == r)
  {
    hide Parse, Print, IsDelimiter;
    var r := Parse(t, eof, [], 0, []);
    ParseWellFormed(t, eof, [], 0, []);
    ParseCounted(t, eof, [], 0, []);
    if r.Some? && IsDelimiter(eof) {
      ReadBack(r.value, eof, [], 0, []);
      assert [] + r.value == r.value;
    }
  }
}
