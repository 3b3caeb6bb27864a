/** The lines of C that the generator prints for a subtree, and how a C compiler reads them back. */
module KeywordText {
  import opened Options
  import opened KeywordTrie
  import opened KeywordCode

  datatype Line =
    | IfNotIdentPart(index: nat)          // if (!isIdentPart(code[index])) {
    | InternalShift(count: nat)           //     internalShift<count>();
    | IfCreateIdentifier                  //     if (shouldCreateIdentifier)
    | SetIdent(name: Text)                //         data->ident = &...nameKeyword;
    | Return(token: Token)                //     return token;
    | Close                               // }
    | If(base: nat, chars: Text)          // if (comparison) {
    | ElseIf(base: nat, chars: Text)      // } else if (comparison) {
    | ReturnIdent                         // return IDENT;

  // ----- Printing -----

  function Render(code: Code): seq<Line>
    decreases code, |code.branches| + 1
  {
    RenderAccept(code.accept) + RenderFrom(code, 0)
  }

  function RenderAccept(accept: Option<Accept>): seq<Line> {
    match accept
    case None => []
    case Some(a) =>
      [IfNotIdentPart(a.index), InternalShift(a.shift), IfCreateIdentifier, SetIdent(a.ident), Return(a.token), Close]
  }

  /** The chain from branch `k` on, down to its closing brace. */
  function RenderFrom(code: Code, k: nat): seq<Line>
    requires k <= |code.branches|
    decreases code, |code.branches| - k
  {
    if k == |code.branches| then
      if k == 0 then [] else [Close]
    else
      var b := code.branches[k];
      [if k == 0 then If(b.base, b.chars) else ElseIf(b.base, b.chars)] + Render(b.body) + RenderFrom(code, k + 1)
  }

  // ----- Reading -----

  type Parsed<T> = Option<(T, seq<Line>)>

  /** An acceptance block if there is one, then a chain if there is one; what follows is left over. */
  function ParseCode(lines: seq<Line>): (r: Parsed<Code>)
    ensures r.Some? ==> |r.value.1| <= |lines|
    decreases |lines|, 1
  {
    match ParseAccept(lines)
    case None => None
    case Some((accept, rest)) =>
      if rest != [] && rest[0].If? then
        match ParseChain(rest)
        case None => None
        case Some((branches, rest')) => Some((Code(accept, branches), rest'))
      else
        Some((Code(accept, []), rest))
  }

  function ParseAccept(lines: seq<Line>): (r: Parsed<Option<Accept>>)
    ensures r.Some? ==> |r.value.1| <= |lines|
  {
    if lines == [] || !lines[0].IfNotIdentPart? then Some((None, lines))
    else if |lines| >= 6 && lines[1].InternalShift? && lines[2].IfCreateIdentifier? && lines[3].SetIdent? &&
            lines[4].Return? && lines[5].Close? then
      Some((Some(Accept(lines[0].index, lines[1].count, lines[3].name, lines[4].token)), lines[6..]))
    else None
  }

  /** The branches of a chain, starting at an `if` or `else if`. */
  function ParseChain(lines: seq<Line>): (r: Parsed<seq<Branch>>)
    requires lines != [] && (lines[0].If? || lines[0].ElseIf?)
    ensures r.Some? ==> |r.value.1| < |lines|
    decreases |lines|, 0
  {
    match ParseCode(lines[1..])
    case None => None
    case Some((body, rest)) =>
      var branch := Branch(lines[0].base, lines[0].chars, body);
      if rest != [] && rest[0].Close? then Some(([branch], rest[1..]))
      else if rest != [] && rest[0].ElseIf? then
        match ParseChain(rest)
        case None => None
        case Some((branches, rest')) => Some(([branch] + branches, rest'))
      else None
  }

  /** Lines that may follow a complete piece of code. */
  predicate Ends(tail: seq<Line>) {
    tail == [] || tail[0].Close? || tail[0].ElseIf? || tail[0].ReturnIdent?
  }

  /** What is printed for a piece of code is read as that code: the braces and the else-ifs fall into place. */
  lemma {:induction false} ParseOfRendered(code: Code, tail: seq<Line>)
    requires Ends(tail)
    ensures ParseCode(Render(code) + tail) == Some((code, tail))
    decreases code, |code.branches| + 1
  {
    hide RenderFrom, ParseChain;
    var chain := RenderFrom(code, 0) + tail;
    var lines := Render(code) + tail;
    assert lines == RenderAccept(code.accept) + chain;
    ChainStarts(code, tail);
    if code.accept.Some? {
      assert lines[6..] == chain;
    } else {
      assert lines == chain;
    }
    if code.branches != [] {
      ParseOfRenderedChain(code, 0, tail);
      assert code.branches[0..] == code.branches;
    }
  }

  lemma ChainStarts(code: Code, tail: seq<Line>)
    ensures code.branches == [] ==> RenderFrom(code, 0) + tail == tail
    ensures code.branches != [] ==> RenderFrom(code, 0) != [] && RenderFrom(code, 0)[0].If?
  {
    assert [] + tail == tail;
  }

  lemma {:induction false} ParseOfRenderedChain(code: Code, k: nat, tail: seq<Line>)
    requires k < |code.branches|
    ensures var lines := RenderFrom(code, k) + tail;
            lines != [] && (lines[0].If? || lines[0].ElseIf?) && ParseChain(lines) == Some((code.branches[k..], tail))
    decreases code, |code.branches| - k
  {
    hide Render, ParseCode;
    var b := code.branches[k];
    var rest := RenderFrom(code, k + 1) + tail;
    var lines := RenderFrom(code, k) + tail;
    assert lines[1..] == Render(b.body) + rest;
    if k + 1 == |code.branches| {
      assert rest == [Close] + tail && rest[1..] == tail;
      ParseOfRendered(b.body, rest);
      assert code.branches[k..] == [b];
    } else {
      ParseOfRenderedChain(code, k + 1, tail);
      assert rest[0].ElseIf?;
      ParseOfRendered(b.body, rest);
      assert code.branches[k..] == [b] + code.branches[k + 1..];
    }
  }
}
