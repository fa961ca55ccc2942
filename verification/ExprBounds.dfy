/** How large the values of the ProxyNova evaluator can grow. */
module ExprBounds {
  import opened Wrappers
  import opened ExprSyntax
  import opened ExprLimits
  import opened ExprMeaning
  import Utf8

  /** The value of `e`, and of every expression inside it, stays within `limit`. */
  predicate EveryValueWithin(e: Expr, limit: nat) {
    && (Meaning(e).Some? ==> ValueWithin(Meaning(e).value, limit))
    && match e
       case Call(receiver, m) =>
         && EveryValueWithin(receiver, limit)
         && (m.Concat? ==> forall a | a in m.args :: EveryValueWithin(a, limit))
       case _ => true
  }

  /** The quoted literals of `e` take at most `limit` bytes each. */
  predicate LiteralsWithin(e: Expr, limit: nat) {
    match e
    case StringLit(text) => |Utf8.Encode(text)| <= limit
    case ArrayLit(_) => true
    case Atob(payload) => |Utf8.Encode(payload)| <= limit
    case Call(receiver, m) =>
      LiteralsWithin(receiver, limit) && (m.Concat? ==> forall a | a in m.args :: LiteralsWithin(a, limit))
  }

  // ----- From literals to values -----

  lemma {:induction false} MeaningWithin(e: Expr, limit: nat)
    requires limit >= MAX_EVAL_LEN && LiteralsWithin(e, limit)
    ensures EveryValueWithin(e, limit)
  {
    hide Utf8.Encode, Apply;
    match e
    case StringLit(_) =>
    case ArrayLit(_) =>
    case Atob(payload) => AtobShrinks(payload);
    case Call(receiver, m) =>
      MeaningWithin(receiver, limit);
      if Meaning(receiver).Some? {
        ApplyKeepsWithin(Meaning(receiver).value, m, limit);
      }
      if m.Concat? {
        forall a | a in m.args ensures EveryValueWithin(a, limit) {
          MeaningWithin(a, limit);
        }
      }
  }

  // ----- From the input to literals -----

  lemma {:induction false} LiteralsWithinMore(e: Expr, limit: nat, more: nat)
    requires limit <= more && LiteralsWithin(e, limit)
    ensures LiteralsWithin(e, more)
  {
    if e.Call? {
      LiteralsWithinMore(e.receiver, limit, more);
      if e.operation.Concat? {
        forall a | a in e.operation.args ensures LiteralsWithin(a, more) {
          LiteralsWithinMore(a, limit, more);
        }
      }
    }
  }

  lemma PrimaryFitsInput(s: seq<byte>)
    requires PrimaryPhrase(s).Some?
    ensures LiteralsWithin(PrimaryPhrase(s).value.0, |s|)
  {
    hide Utf8.Encode, StringToken, ArrayPhrase, Ident, Skip;
    if NextIs(s, QUOTE) {
      TokenFitsInput(s);
    } else if !NextIs(s, LBRACKET) {
      TokenFitsInput(Expect(Ident(s).value.1, OPEN).value);
    }
  }

  lemma {:induction false} ExprFitsInput(s: seq<byte>, limit: nat)
    requires |s| <= limit && ExprPhrase(s).Some?
    ensures LiteralsWithin(ExprPhrase(s).value.0, limit)
    decreases |s|, 2
  {
    hide PrimaryPhrase, CallChain, LiteralsWithin;
    var (primary, rest) := PrimaryPhrase(s).value;
    PrimaryFitsInput(s);
    LiteralsWithinMore(primary, |s|, limit);
    ChainFitsInput(primary, rest, limit);
  }

  lemma {:induction false} ChainFitsInput(receiver: Expr, s: seq<byte>, limit: nat)
    requires |s| <= limit && LiteralsWithin(receiver, limit) && CallChain(receiver, s).Some?
    ensures LiteralsWithin(CallChain(receiver, s).value.0, limit)
    decreases |s|, 1
  {
    hide MethodPhrase, Ident, Skip;
    if NextIs(s, DOT) {
      var (name, s1) := Ident(Skip(s)[1..]).value;
      var (m, rest) := MethodPhrase(name, s1).value;
      if m.Concat? {
        ConcatCameFromConcat(name, s1);
        ArgumentsFitInput(s1, limit);
      }
      ChainFitsInput(Call(receiver, m), rest, limit);
    }
  }

  lemma ConcatCameFromConcat(name: string, s: seq<byte>)
    requires MethodPhrase(name, s).Some? && MethodPhrase(name, s).value.0.Concat?
    ensures ConcatPhrase(s).Some? && MethodPhrase(name, s).value.0.args == ConcatPhrase(s).value.0
  {
    hide ConcatPhrase, Skip, ArithPhrase, SeparatorPhrase, MapBody, Ident;
  }

  lemma {:induction false} ArgumentsFitInput(s: seq<byte>, limit: nat)
    requires |s| <= limit && ConcatPhrase(s).Some?
    ensures forall a | a in ConcatPhrase(s).value.0 :: LiteralsWithin(a, limit)
    decreases |s|, 0
  {
    hide ConcatArgs, Skip;
    var s1 := Expect(s, OPEN).value;
    if !NextIs(s1, CLOSE) {
      ArgsFitInput([], s1, limit);
    }
  }

  lemma {:induction false} ArgsFitInput(acc: seq<Expr>, s: seq<byte>, limit: nat)
    requires |s| <= limit && (forall a | a in acc :: LiteralsWithin(a, limit)) && ConcatArgs(acc, s).Some?
    ensures forall a | a in ConcatArgs(acc, s).value.0 :: LiteralsWithin(a, limit)
    decreases |s|, 3
  {
    hide ExprPhrase, Skip, LiteralsWithin;
    var (arg, rest) := ExprPhrase(s).value;
    ExprFitsInput(s, limit);
    if NextIs(rest, COMMA) {
      ArgsFitInput(acc + [arg], Skip(rest)[1..], limit);
    }
  }

  /** No string the evaluator ever holds is longer than the input, or than 512 bytes if that is more:
      neither the value of the whole expression nor that of any expression read inside it. */
  lemma {:induction false} StringsStayWithinInput(s: seq<byte>)
    requires ExprPhrase(s).Some?
    ensures EveryValueWithin(ExprPhrase(s).value.0, if |s| > MAX_EVAL_LEN then |s| else MAX_EVAL_LEN)
  {
    hide ExprPhrase, EveryValueWithin, LiteralsWithin;
    var limit := if |s| > MAX_EVAL_LEN then |s| else MAX_EVAL_LEN;
    ExprFitsInput(s, limit);
    MeaningWithin(ExprPhrase(s).value.0, limit);
  }
}
