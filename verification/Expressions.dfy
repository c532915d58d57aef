// The boolean expressions of Interpreter_Pattern.cpp and VariableExp.cpp, evaluated in the
// contexts of Context.cpp. A lookup can fail; names are replaced by case-insensitive prefix.

module Expressions {

  datatype Exp =
    | And(left: Exp, right: Exp)
    | Or(left: Exp, right: Exp)
    | Not(exp: Exp)
    | Const(value: bool)
    | Var(name: string)

  // Evaluation gives a value or throws out_of_range.
  datatype Outcome = Value(b: bool) | Throws

  // ----- contexts -----

  // No variable is known in an empty context, yet looking one up gives false.
  function LookupIn(m: map<string, bool>, name: string): Outcome {
    if m == map[] then Value(false)
    else if name in m then Value(m[name])
    else Throws
  }

  class Context {
    var keyPair: map<string, bool>

    constructor ()
      ensures keyPair == map[]
    {
      keyPair := map[];
    }

    method Lookup(name: string) returns (r: Outcome)
      ensures r == LookupIn(keyPair, name)
    {
      if keyPair == map[] {
        return Value(false);
      }
      return if name in keyPair then Value(keyPair[name]) else Throws;
    }

    method Assign(name: string, value: bool)
      modifies this
      ensures keyPair == old(keyPair)[name := value]
      ensures LookupIn(keyPair, name) == Value(value)
    {
      keyPair := keyPair[name := value];
      assert name in keyPair;
    }
  }

  // ----- names -----

  function Lower(c: char): char {
    if 'A' <= c <= 'Z' then (c as int + 32) as char else c
  }

  // strncasecmp(name, own, strlen(own)) == 0
  predicate Matches(own: string, name: string) {
    |own| <= |name| && forall i :: 0 <= i < |own| ==> Lower(own[i]) == Lower(name[i])
  }

  // Folding maps the 26 capitals onto the small letters, in order, and nothing else.
  lemma LowerIs(c: char)
    ensures 'A' <= c <= 'Z' ==> 'a' <= Lower(c) <= 'z' && Lower(c) as int - 'a' as int == c as int - 'A' as int
    ensures c < 'A' || 'Z' < c ==> Lower(c) == c
  {
  }

  function Folded(s: string): string {
    seq(|s|, i requires 0 <= i < |s| => Lower(s[i]))
  }

  lemma MatchesIsPrefix(own: string, name: string)
    ensures Matches(own, name) <==> Folded(own) <= Folded(name)
  {
    if Folded(own) <= Folded(name) {
      forall i | 0 <= i < |own|
        ensures Lower(own[i]) == Lower(name[i])
      {
        assert Folded(own)[i] == Folded(name)[i];
      }
    }
  }

  // The same letter in either case, or the same character.
  predicate SameLetter(c: char, d: char) {
    || c == d
    || ('A' <= c <= 'Z' && d as int == c as int + 32)
    || ('A' <= d <= 'Z' && c as int == d as int + 32)
  }

  lemma MatchesExactlyWhen(own: string, name: string)
    ensures Matches(own, name) <==>
      |own| <= |name| && forall i :: 0 <= i < |own| ==> SameLetter(own[i], name[i])
  {
    if |own| <= |name| {
      forall i | 0 <= i < |own|
        ensures SameLetter(own[i], name[i]) <==> Lower(own[i]) == Lower(name[i])
      {
        LowerIs(own[i]);
        LowerIs(name[i]);
      }
    }
  }

  // ----- evaluating, replacing, copying -----

  function Evaluate(e: Exp, m: map<string, bool>): Outcome {
    match e
    case And(a, b) =>
      var r := Evaluate(a, m);
      if r == Value(true) then Evaluate(b, m) else r
    case Or(a, b) =>
      var r := Evaluate(a, m);
      if r == Value(false) then Evaluate(b, m) else r
    case Not(a) =>
      var r := Evaluate(a, m);
      if r.Throws? then r else Value(!r.b)
    case Const(v) => Value(v)
    case Var(name) => LookupIn(m, name)
  }

  function Replace(e: Exp, name: string, exp: Exp): Exp {
    match e
    case And(a, b) => And(Replace(a, name, exp), Replace(b, name, exp))
    case Or(a, b) => Or(Replace(a, name, exp), Replace(b, name, exp))
    case Not(a) => Not(Replace(a, name, exp))
    case Const(v) => Const(v)
    case Var(own) => if Matches(own, name) then Copy(exp) else Var(own)
  }

  function Copy(e: Exp): (c: Exp)
    ensures c == e
  {
    match e
    case And(a, b) => And(Copy(a), Copy(b))
    case Or(a, b) => Or(Copy(a), Copy(b))
    case Not(a) => Not(Copy(a))
    case Const(v) => Const(v)
    case Var(own) => Var(own)
  }

  function Vars(e: Exp): set<string> {
    match e
    case And(a, b) => Vars(a) + Vars(b)
    case Or(a, b) => Vars(a) + Vars(b)
    case Not(a) => Vars(a)
    case Const(_) => {}
    case Var(own) => {own}
  }

  // Evaluation in which each name has an outcome of its own.
  ghost function EvaluateBy(e: Exp, look: string -> Outcome): Outcome {
    match e
    case And(a, b) =>
      var r := EvaluateBy(a, look);
      if r == Value(true) then EvaluateBy(b, look) else r
    case Or(a, b) =>
      var r := EvaluateBy(a, look);
      if r == Value(false) then EvaluateBy(b, look) else r
    case Not(a) =>
      var r := EvaluateBy(a, look);
      if r.Throws? then r else Value(!r.b)
    case Const(v) => Value(v)
    case Var(own) => look(own)
  }

  // ----- what the operators mean -----

  // Where both sides have a value the operators are those of the booleans.
  lemma OperatorsAreBoolean(a: Exp, b: Exp, m: map<string, bool>)
    requires Evaluate(a, m).Value? && Evaluate(b, m).Value?
    ensures Evaluate(And(a, b), m) == Value(Evaluate(a, m).b && Evaluate(b, m).b)
    ensures Evaluate(Or(a, b), m) == Value(Evaluate(a, m).b || Evaluate(b, m).b)
    ensures Evaluate(Not(a), m) == Value(!Evaluate(a, m).b)
  {
  }

  // Where a side throws, the operator does, unless the left side decides it.
  lemma OperatorsThrow(a: Exp, b: Exp, m: map<string, bool>)
    ensures Evaluate(And(a, b), m) == Throws
      <==> Evaluate(a, m) == Throws || (Evaluate(a, m) == Value(true) && Evaluate(b, m) == Throws)
    ensures Evaluate(Or(a, b), m) == Throws
      <==> Evaluate(a, m) == Throws || (Evaluate(a, m) == Value(false) && Evaluate(b, m) == Throws)
    ensures Evaluate(Not(a), m) == Throws <==> Evaluate(a, m) == Throws
    ensures Evaluate(a, m) == Value(false) ==> Evaluate(And(a, b), m) == Value(false)
    ensures Evaluate(a, m) == Value(true) ==> Evaluate(Or(a, b), m) == Value(true)
  {
  }

  // A variable or constant alone; only a context that is not empty and lacks the name throws.
  lemma LeavesMean(name: string, v: bool, m: map<string, bool>)
    ensures Evaluate(Const(v), m) == Value(v)
    ensures name in m ==> Evaluate(Var(name), m) == Value(m[name])
    ensures m == map[] ==> Evaluate(Var(name), m) == Value(false)
    ensures Evaluate(Var(name), m) == Throws <==> m != map[] && name !in m
  {
  }

  // With every variable bound nothing throws.
  lemma {:induction false} BoundHasValue(e: Exp, m: map<string, bool>)
    requires Vars(e) <= m.Keys
    ensures Evaluate(e, m).Value?
  {
    match e
    case And(a, b) => BoundHasValue(a, m); BoundHasValue(b, m);
    case Or(a, b) => BoundHasValue(a, m); BoundHasValue(b, m);
    case Not(a) => BoundHasValue(a, m);
    case Const(_) =>
    case Var(name) => assert name in m.Keys;
  }

  // The empty context is every context in which all variables are false.
  lemma {:induction false} EmptyIsAllFalse(e: Exp, m: map<string, bool>)
    requires forall w :: w in Vars(e) ==> w in m && !m[w]
    ensures Evaluate(e, map[]).Value? && Evaluate(e, map[]) == Evaluate(e, m)
  {
    match e
    case And(a, b) => EmptyIsAllFalse(a, m); EmptyIsAllFalse(b, m);
    case Or(a, b) => EmptyIsAllFalse(a, m); EmptyIsAllFalse(b, m);
    case Not(a) => EmptyIsAllFalse(a, m);
    case Const(_) =>
    case Var(name) => assert name in Vars(e);
  }

  // So no expression throws in an empty context.
  lemma EmptyNeverThrows(e: Exp)
    ensures Evaluate(e, map[]).Value?
  {
    EmptyIsAllFalse(e, map w | w in Vars(e) :: false);
  }

  // ----- which variables are replaced -----

  // A variable is replaced exactly by a name that continues its own, in any case of letters.
  lemma ReplacedExactlyWhen(own: string, name: string, exp: Exp)
    ensures Replace(Var(own), name, exp)
         == if Folded(own) <= Folded(name) then exp else Var(own)
  {
    MatchesIsPrefix(own, name);
  }

  // In particular under any change of case and any longer name, ...
  lemma ReplacedByLonger(own: string, other: string, more: string, exp: Exp)
    requires |own| == |other| && forall i :: 0 <= i < |own| ==> SameLetter(own[i], other[i])
    ensures Replace(Var(own), other + more, exp) == exp
  {
    MatchesExactlyWhen(own, other + more);
  }

  // ... and not under a shorter name or one with another character in it.
  lemma KeptByOther(own: string, name: string, exp: Exp, i: nat)
    requires i < |own| && (i < |name| ==> !SameLetter(own[i], name[i]))
    ensures Replace(Var(own), name, exp) == Var(own)
  {
    MatchesExactlyWhen(own, name);
  }

  lemma ReplaceExamples()
    ensures Replace(Var("X"), "x", Const(true)) == Const(true)
    ensures Replace(Var("ab"), "ABC", Const(true)) == Const(true)
    ensures Replace(Var("abc"), "ab", Const(true)) == Var("abc")
  {
    ReplacedByLonger("X", "x", "", Const(true));
    assert "x" + "" == "x" && "AB" + "C" == "ABC";
    ReplacedByLonger("ab", "AB", "C", Const(true));
    KeptByOther("abc", "ab", Const(true), 2);
  }

  // ----- replacing is evaluating under other lookups -----

  lemma {:induction false} Substitution(e: Exp, name: string, exp: Exp, m: map<string, bool>)
    ensures Evaluate(Replace(e, name, exp), m)
         == EvaluateBy(e, own => if Matches(own, name) then Evaluate(exp, m) else LookupIn(m, own))
  {
    match e
    case And(a, b) => Substitution(a, name, exp, m); Substitution(b, name, exp, m);
    case Or(a, b) => Substitution(a, name, exp, m); Substitution(b, name, exp, m);
    case Not(a) => Substitution(a, name, exp, m);
    case Const(_) =>
    case Var(_) =>
  }

  lemma {:induction false} OnlyVarsMatter(e: Exp, look: string -> Outcome, look': string -> Outcome)
    requires forall w :: w in Vars(e) ==> look(w) == look'(w)
    ensures EvaluateBy(e, look) == EvaluateBy(e, look')
  {
    match e
    case And(a, b) => OnlyVarsMatter(a, look, look'); OnlyVarsMatter(b, look, look');
    case Or(a, b) => OnlyVarsMatter(a, look, look'); OnlyVarsMatter(b, look, look');
    case Not(a) => OnlyVarsMatter(a, look, look');
    case Const(_) =>
    case Var(own) => assert own in Vars(e);
  }

  lemma {:induction false} EvaluateIsBy(e: Exp, m: map<string, bool>)
    ensures Evaluate(e, m) == EvaluateBy(e, own => LookupIn(m, own))
  {
    match e
    case And(a, b) => EvaluateIsBy(a, m); EvaluateIsBy(b, m);
    case Or(a, b) => EvaluateIsBy(a, m); EvaluateIsBy(b, m);
    case Not(a) => EvaluateIsBy(a, m);
    case Const(_) =>
    case Var(_) =>
  }

  // ----- assigning a variable and replacing it by a constant -----

  // The two agree on a variable w when ...
  predicate AgreesOn(w: string, name: string, value: bool, m: map<string, bool>) {
    || w == name
    || (w in m && (Matches(w, name) ==> m[w] == value))
    || (w !in m && m != map[] && !Matches(w, name))
  }

  // ... and on all expressions over a set of names exactly when they agree on each name:
  // an empty context answers false before the assignment and throws after it, and Replace
  // captures every variable that is a prefix of the name.
  lemma AssignIsReplaceExactlyWhen(names: set<string>, name: string, value: bool, m: map<string, bool>)
    ensures (forall e :: Vars(e) <= names ==>
              Evaluate(e, m[name := value]) == Evaluate(Replace(e, name, Const(value)), m))
      <==> (forall w :: w in names ==> AgreesOn(w, name, value, m))
  {
    if forall w :: w in names ==> AgreesOn(w, name, value, m) {
      forall e | Vars(e) <= names
        ensures Evaluate(e, m[name := value]) == Evaluate(Replace(e, name, Const(value)), m)
      {
        AssignIsReplace(e, name, value, m);
      }
    } else {
      var w :| w in names && !AgreesOn(w, name, value, m);
      VariableDiffers(w, name, value, m);
      assert Vars(Var(w)) <= names;
    }
  }

  lemma AssignIsReplace(e: Exp, name: string, value: bool, m: map<string, bool>)
    requires forall w :: w in Vars(e) ==> AgreesOn(w, name, value, m)
    ensures Evaluate(e, m[name := value]) == Evaluate(Replace(e, name, Const(value)), m)
  {
    var m' := m[name := value];
    EvaluateIsBy(e, m');
    Substitution(e, name, Const(value), m);
    forall w | w in Vars(e)
      ensures LookupIn(m', w) == if Matches(w, name) then Value(value) else LookupIn(m, w)
    {
      assert name in m' && Matches(name, name);
    }
    OnlyVarsMatter(e, own => LookupIn(m', own),
      own => if Matches(own, name) then Evaluate(Const(value), m) else LookupIn(m, own));
  }

  lemma VariableDiffers(w: string, name: string, value: bool, m: map<string, bool>)
    requires !AgreesOn(w, name, value, m)
    ensures Evaluate(Var(w), m[name := value]) != Evaluate(Replace(Var(w), name, Const(value)), m)
  {
    assert name in m[name := value];
  }

  // ----- two replacements -----

  // Replacing x by a and then y by b is replacing y by b and then x by (a with y replaced),
  // exactly when the two orders agree on each variable that matches y.
  lemma {:induction false} ReplaceCommutesExactlyWhen(e: Exp, x: string, a: Exp, y: string, b: Exp)
    ensures Replace(Replace(e, x, a), y, b) == Replace(Replace(e, y, b), x, Replace(a, y, b))
      <==> (forall w :: w in Vars(e) && Matches(w, y) ==>
              Replace(b, x, Replace(a, y, b)) == if Matches(w, x) then Replace(a, y, b) else b)
  {
    match e
    case And(l, r) =>
      ReplaceCommutesExactlyWhen(l, x, a, y, b);
      ReplaceCommutesExactlyWhen(r, x, a, y, b);
    case Or(l, r) =>
      ReplaceCommutesExactlyWhen(l, x, a, y, b);
      ReplaceCommutesExactlyWhen(r, x, a, y, b);
    case Not(l) =>
      ReplaceCommutesExactlyWhen(l, x, a, y, b);
    case Const(_) =>
    case Var(own) =>
      assert Vars(e) == {own};
  }

  lemma {:induction false} NothingToReplace(e: Exp, name: string, exp: Exp)
    requires forall w :: w in Vars(e) ==> !Matches(w, name)
    ensures Replace(e, name, exp) == e
  {
    match e
    case And(l, r) => NothingToReplace(l, name, exp); NothingToReplace(r, name, exp);
    case Or(l, r) => NothingToReplace(l, name, exp); NothingToReplace(r, name, exp);
    case Not(l) => NothingToReplace(l, name, exp);
    case Const(_) =>
    case Var(own) => assert own in Vars(e);
  }

  // In particular when no variable of e matches both names and none of b matches x.
  lemma ReplaceCommutes(e: Exp, x: string, a: Exp, y: string, b: Exp)
    requires forall w :: w in Vars(e) ==> !(Matches(w, x) && Matches(w, y))
    requires forall w :: w in Vars(b) ==> !Matches(w, x)
    ensures Replace(Replace(e, x, a), y, b) == Replace(Replace(e, y, b), x, Replace(a, y, b))
  {
    NothingToReplace(b, x, Replace(a, y, b));
    ReplaceCommutesExactlyWhen(e, x, a, y, b);
  }
}
