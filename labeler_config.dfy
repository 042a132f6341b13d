/**
 * The regex labeler's configuration (pkg/labeler/config.go) and its in-place
 * validation: weights default to 1 and every expression is compiled.
 */
module LabelerConfig {
  import opened Wrappers
  import opened MapIteration

  /** A compiled regular expression; what it matches is an oracle of the labeler. */
  datatype Regex = Regex(expr: string)

  /** `regexp.Compile` as an oracle: whether the expression compiles. */
  type Compiler = string -> bool

  /** The error `regexp.Compile` returns, identified by the expression it rejected. */
  datatype CompileError = CompileError(regexStr: string)

  /** One rule of a label: its expression, the compiled form (nil until validated) and its weight. */
  datatype Matcher = Matcher(regexStr: string, regex: Option<Regex>, weight: int)

  /** What `Matcher.validate` leaves in a matcher. */
  function Validated(m: Matcher, compiles: Compiler): (r: Matcher)
    ensures r.regexStr == m.regexStr
    ensures r.weight != 0
    ensures m.weight != 0 ==> r.weight == m.weight
    ensures r.regex.Some? <==> compiles(m.regexStr)
    ensures r.regex.Some? ==> r.regex.value.expr == m.regexStr
  {
    Matcher(m.regexStr,
            if compiles(m.regexStr) then Some(Regex(m.regexStr)) else None,
            if m.weight == 0 then 1 else m.weight)
  }

  /** Validating twice is validating once. */
  lemma ValidatedTwice(m: Matcher, compiles: Compiler)
    ensures Validated(Validated(m, compiles), compiles) == Validated(m, compiles)
  {
  }

  /** `Matcher.validate` on the matcher stored at `a[i]` (Go calls it through the slice element). */
  method ValidateMatcher(a: array<Matcher>, i: nat, compiles: Compiler) returns (err: Option<CompileError>)
    requires i < a.Length
    modifies a
    ensures a[..] == old(a[..])[i := Validated(old(a[i]), compiles)]
    ensures err.None? <==> compiles(old(a[i]).regexStr)
    ensures err.Some? ==> err.value == CompileError(old(a[i]).regexStr)
  {
    if a[i].weight == 0 {
      a[i] := a[i].(weight := 1);
    }
    if compiles(a[i].regexStr) {
      a[i] := a[i].(regex := Some(Regex(a[i].regexStr)));
      err := None;
    } else {
      a[i] := a[i].(regex := None);
      err := Some(CompileError(a[i].regexStr));
    }
  }

  /** The index of the first matcher whose expression does not compile, or `|ms|`. */
  function FirstInvalid(ms: seq<Matcher>, compiles: Compiler): (n: nat)
    ensures n <= |ms|
    ensures forall j :: 0 <= j < n ==> compiles(ms[j].regexStr)
    ensures n < |ms| ==> !compiles(ms[n].regexStr)
  {
    if ms == [] then 0
    else if !compiles(ms[0].regexStr) then 0
    else 1 + FirstInvalid(ms[1..], compiles)
  }

  /** `ms` with its first `n` matchers validated and the rest untouched. */
  function ValidatedUpTo(ms: seq<Matcher>, n: nat, compiles: Compiler): seq<Matcher>
  {
    seq(|ms|, i requires 0 <= i < |ms| => if i < n then Validated(ms[i], compiles) else ms[i])
  }

  /**
   * A label: its matchers. Like the Go slice, the array is shared by every copy
   * of the `Label` value, so validating a copy changes the stored label too.
   */
  datatype Label = Label(matchers: array<Matcher>)

  /**
   * `Label.validate`: the matchers are validated in place in index order, and the
   * first one that does not compile ends the run with its error.
   */
  method ValidateLabel(l: Label, compiles: Compiler) returns (err: Option<CompileError>)
    modifies l.matchers
    ensures var ms := old(l.matchers[..]); var n := FirstInvalid(ms, compiles);
      && (err.None? <==> n == |ms|)
      && (err.Some? ==> err.value == CompileError(ms[n].regexStr))
      && l.matchers[..] == ValidatedUpTo(ms, if n < |ms| then n + 1 else n, compiles)
    ensures err.None? ==>
      forall i :: 0 <= i < l.matchers.Length ==> l.matchers[i].weight != 0 && l.matchers[i].regex.Some?
  {
    var a := l.matchers;
    ghost var ms := a[..];
    for i := 0 to a.Length
      invariant a[..] == ValidatedUpTo(ms, i, compiles)
      invariant forall j :: 0 <= j < i ==> compiles(ms[j].regexStr)
    {
      err := ValidateMatcher(a, i, compiles);
      if err.Some? {
        assert FirstInvalid(ms, compiles) == i;
        assert a[..] == ValidatedUpTo(ms, i + 1, compiles);
        return;
      }
      assert a[..] == ValidatedUpTo(ms, i + 1, compiles);
    }
    assert FirstInvalid(ms, compiles) == a.Length;
    err := None;
  }

  /** The configuration: label name to rules, and the labels one of which an issue must carry. */
  class Config {
    var labels: map<string, Label>
    var requireLabel: seq<string>

    constructor (labels: map<string, Label>, requireLabel: seq<string>)
      ensures this.labels == labels && this.requireLabel == requireLabel
    {
      this.labels := labels;
      this.requireLabel := requireLabel;
    }

    /** The matcher arrays of all labels. */
    ghost function Arrays(): set<array<Matcher>>
      reads this
    {
      set k | k in labels :: labels[k].matchers
    }

    /** Each label has its own array, as the YAML decoder builds them. */
    ghost predicate Separate()
      reads this
    {
      forall k, k' :: k in labels && k' in labels && k != k' ==> labels[k].matchers != labels[k'].matchers
    }

    /** The label rules as values. */
    function Rules(): map<string, seq<Matcher>>
      reads this, Arrays()
    {
      map k | k in labels :: labels[k].matchers[..]
    }

    /**
     * `Config.Validate`: validates the labels one by one in map order, writes each
     * validated label back under its own key, and stops at the first error; by the
     * sharing of the matcher arrays, that label's matchers up to the failing one
     * stay validated even though it is not written back.
     */
    method Validate(compiles: Compiler) returns (err: Option<CompileError>)
      requires Separate()
      modifies this, Arrays()
      ensures labels == old(labels) && requireLabel == old(requireLabel)
      ensures err.None? <==> AllCompile(old(Rules()), compiles)
      ensures err.None? ==> Rules() == ValidatedRules(old(Rules()), compiles)
      ensures err.Some? ==> exists k :: (k in labels && FailedOn(old(Rules())[k], Rules()[k], err.value, compiles) &&
                                         StoppedAt(old(Rules()), Rules(), k, compiles))
      ensures forall k :: k in labels ==> LeftBy(Rules()[k], old(Rules())[k], compiles)
    {
      ghost var before := Rules();
      ghost var now := before;
      var remaining := labels.Keys;
      ghost var done: set<string> := {};
      while remaining != {}
        invariant labels == old(labels) && requireLabel == old(requireLabel)
        invariant remaining + done == labels.Keys && remaining !! done
        invariant now.Keys == labels.Keys
        invariant forall k :: k in labels ==> labels[k].matchers[..] == now[k]
        invariant forall k :: k in done ==> Finished(before[k], now[k], compiles)
        invariant forall k :: k in remaining ==> now[k] == before[k]
        decreases remaining
      {
        var k := Pick(remaining);
        assert labels[k].matchers in old(Arrays());
        err, now := ValidateEntry(k, now, compiles);
        if err.Some? {
          RulesAre(this, now);
          StoppedOn(before, now, k, done, err.value, compiles);
          return;
        }
        remaining := remaining - {k};
        done := done + {k};
      }
      RulesAre(this, now);
      AllValidated(before, now, compiles);
      err := None;
    }

    /**
     * One round of `Config.Validate`: label `k` is validated and, if that succeeds,
     * written back. `now` and `now'` are the label rules before and after.
     */
    method ValidateEntry(k: string, ghost now: map<string, seq<Matcher>>, compiles: Compiler)
      returns (err: Option<CompileError>, ghost now': map<string, seq<Matcher>>)
      requires k in labels && Separate()
      requires now.Keys == labels.Keys && forall k' :: k' in labels ==> labels[k'].matchers[..] == now[k']
      modifies this, labels[k].matchers
      ensures labels == old(labels) && requireLabel == old(requireLabel)
      ensures now'.Keys == labels.Keys && forall k' :: k' in labels ==> labels[k'].matchers[..] == now'[k']
      ensures forall k' :: k' in now && k' != k ==> now'[k'] == now[k']
      ensures err.None? ==> Finished(now[k], now'[k], compiles)
      ensures err.Some? ==> FailedOn(now[k], now'[k], err.value, compiles)
    {
      var l := labels[k];
      err := ValidateLabel(l, compiles);
      now' := now[k := l.matchers[..]];
      if err.Some? {
        return;
      }
      labels := labels[k := l];
    }
  }

  /** Every expression of every label compiles. */
  predicate AllCompile(rules: map<string, seq<Matcher>>, compiles: Compiler)
  {
    forall k :: k in rules ==> FirstInvalid(rules[k], compiles) == |rules[k]|
  }

  /** The rules with every matcher validated. */
  function ValidatedRules(rules: map<string, seq<Matcher>>, compiles: Compiler): map<string, seq<Matcher>>
  {
    map k | k in rules :: ValidatedUpTo(rules[k], |rules[k]|, compiles)
  }

  /** Every matcher of `ms` holds a compiled expression. */
  predicate AllCompiled(ms: seq<Matcher>)
  {
    forall i :: 0 <= i < |ms| ==> ms[i].regex.Some?
  }

  /** Every matcher of every label holds a compiled expression, as the labeler needs. */
  predicate Compiled(rules: map<string, seq<Matcher>>)
  {
    forall k :: k in rules ==> AllCompiled(rules[k])
  }

  /** The rules a successful `Config.Validate` leaves are compiled and weighted. */
  lemma ValidatedRulesReady(rules: map<string, seq<Matcher>>, compiles: Compiler)
    requires AllCompile(rules, compiles)
    ensures Compiled(ValidatedRules(rules, compiles))
    ensures forall k, i :: k in rules && 0 <= i < |rules[k]| ==> ValidatedRules(rules, compiles)[k][i].weight != 0
  {
    forall k | k in rules
      ensures AllCompiled(ValidatedRules(rules, compiles)[k])
    {
      var ms := rules[k];
      forall i | 0 <= i < |ms|
        ensures ValidatedRules(rules, compiles)[k][i].regex.Some?
      {
        assert compiles(ms[i].regexStr);
      }
    }
  }

  /** A label whose rules were `before` is where validation stopped with `e`, leaving `now`. */
  ghost predicate FailedOn(before: seq<Matcher>, now: seq<Matcher>, e: CompileError, compiles: Compiler)
  {
    var n := FirstInvalid(before, compiles);
    && n < |before|
    && e == CompileError(before[n].regexStr)
    && now == ValidatedUpTo(before, n + 1, compiles)
  }

  /** A label whose rules were `before` validated without error, leaving `now`. */
  ghost predicate Finished(before: seq<Matcher>, now: seq<Matcher>, compiles: Compiler)
  {
    FirstInvalid(before, compiles) == |before| && now == ValidatedUpTo(before, |before|, compiles)
  }

  /** `c.Rules()` is `rules` when every label's array holds the rules of that label. */
  lemma RulesAre(c: Config, rules: map<string, seq<Matcher>>)
    requires rules.Keys == c.labels.Keys
    requires forall k :: k in c.labels ==> c.labels[k].matchers[..] == rules[k]
    ensures c.Rules() == rules
  {
  }

  /** The state `Config.Validate` reaches when every label validated. */
  lemma AllValidated(before: map<string, seq<Matcher>>, after: map<string, seq<Matcher>>, compiles: Compiler)
    requires before.Keys == after.Keys
    requires forall k :: k in before ==> Finished(before[k], after[k], compiles)
    ensures AllCompile(before, compiles)
    ensures after == ValidatedRules(before, compiles)
    ensures forall k :: k in after ==> LeftBy(after[k], before[k], compiles)
  {
  }

  /** The state `Config.Validate` reaches when label `k` failed after the labels in `done` validated. */
  lemma StoppedOn(before: map<string, seq<Matcher>>, after: map<string, seq<Matcher>>, k: string,
                  done: set<string>, e: CompileError, compiles: Compiler)
    requires before.Keys == after.Keys && k in before && k !in done
    requires forall k' :: k' in done ==> k' in before && Finished(before[k'], after[k'], compiles)
    requires forall k' :: k' in before && k' !in done && k' != k ==> after[k'] == before[k']
    requires FailedOn(before[k], after[k], e, compiles)
    ensures !AllCompile(before, compiles)
    ensures StoppedAt(before, after, k, compiles)
    ensures forall k' :: k' in after ==> LeftBy(after[k'], before[k'], compiles)
  {
  }

  /** Validation stopped at label `k`: every other label is untouched or wholly validated. */
  ghost predicate StoppedAt(before: map<string, seq<Matcher>>, after: map<string, seq<Matcher>>, k: string, compiles: Compiler)
    requires before.Keys == after.Keys
  {
    forall k' :: k' in before && k' != k ==> after[k'] == before[k'] || Finished(before[k'], after[k'], compiles)
  }

  /** After `Config.Validate` a label's rules are unchanged, wholly validated, or validated up to the failing matcher. */
  ghost predicate LeftBy(now: seq<Matcher>, before: seq<Matcher>, compiles: Compiler)
  {
    var n := FirstInvalid(before, compiles);
    now == before || now == ValidatedUpTo(before, |before|, compiles) || (n < |before| && now == ValidatedUpTo(before, n + 1, compiles))
  }
}
