/** The `coalesce!` macro (src/utils.rs): `coalesce!(a, b, …, z)` expands to
    nested `if let Some(v) = a { v } else { … }` and yields the payload of
    the first argument that is `Some`, or else the last argument. Arguments
    are evaluated left to right and only as far as needed; an argument may
    also leave the expression altogether (`continue`, `return`, a panic),
    as the fallback does in `coalesce!(x, continue)`. */
module Coalesce {
  import opened Wrappers

  /** What evaluating one argument does: yield a value, or transfer control
      out of the expression. */
  datatype Outcome<T> = Yields(value: T) | Escapes

  /** The outcome of the whole expansion, and how many arguments were
      evaluated to reach it. */
  datatype Run<T> = Run(outcome: Outcome<T>, evaluated: nat)

  /** An argument that settles the expansion: it escapes or is `Some`. */
  predicate Decides<T>(o: Outcome<Option<T>>)
  {
    o != Yields(None)
  }

  /** The outcome an argument that decides the expansion gives it. */
  function Decision<T>(o: Outcome<Option<T>>): (r: Outcome<T>)
    requires Decides(o)
    ensures r.Escapes? <==> o.Escapes?
    ensures r.Yields? ==> o == Yields(Some(r.value))
  {
    match o
    case Escapes => Escapes
    case Yields(opt) => Yields(opt.value)
  }

  /** Every argument before position `i` was `None`. */
  predicate NoneBefore<T>(options: seq<Outcome<Option<T>>>, i: nat)
    requires i <= |options|
  {
    forall j :: 0 <= j < i ==> !Decides(options[j])
  }

  /** The expansion of `coalesce!(options[0], …, options[n - 1], last)`:
      the first deciding argument gives the outcome, after every argument
      before it was evaluated and found `None`; when there is none, every
      argument is evaluated and `last` gives the outcome. */
  function Expand<T>(options: seq<Outcome<Option<T>>>, last: Outcome<T>): (r: Run<T>)
    ensures NoneBefore(options, |options|) ==> r == Run(last, |options| + 1)
    ensures forall i :: 0 <= i < |options| && Decides(options[i]) && NoneBefore(options, i)
                        ==> r == Run(Decision(options[i]), i + 1)
    decreases |options|
  {
    if options == [] then Run(last, 1)
    else if Decides(options[0]) then Run(Decision(options[0]), 1)
    else
      var tail := options[1..];
      var rest := Expand(tail, last);
      assert NoneBefore(options, |options|) ==> NoneBefore(tail, |tail|) by {
        if NoneBefore(options, |options|) {
          forall j | 0 <= j < |tail| ensures !Decides(tail[j]) {
            assert tail[j] == options[j + 1];
          }
        }
      }
      assert forall i :: 1 <= i < |options| && NoneBefore(options, i) ==> NoneBefore(tail, i - 1) by {
        forall i | 1 <= i < |options| && NoneBefore(options, i) ensures NoneBefore(tail, i - 1) {
          forall j | 0 <= j < i - 1 ensures !Decides(tail[j]) {
            assert tail[j] == options[j + 1];
          }
        }
      }
      assert forall i :: 1 <= i < |options| ==> options[i] == tail[i - 1];
      Run(rest.outcome, rest.evaluated + 1)
  }

  /** A macro invocation: the arguments and whether a comma trails them. */
  datatype Invocation<T> = Invocation(options: seq<Outcome<Option<T>>>, last: Outcome<T>, trailingComma: bool)

  /** Rule 3 drops a trailing comma and expands again; rules 1 and 2 are
      `Expand`. */
  function ExpandInvocation<T>(inv: Invocation<T>): (r: Run<T>)
    decreases if inv.trailingComma then 1 else 0
  {
    if inv.trailingComma then ExpandInvocation(inv.(trailingComma := false))
    else Expand(inv.options, inv.last)
  }

  /** A trailing comma makes no difference. */
  lemma TrailingCommaIgnored<T>(inv: Invocation<T>)
    ensures ExpandInvocation(inv.(trailingComma := true)) == ExpandInvocation(inv.(trailingComma := false))
    ensures ExpandInvocation(inv) == Expand(inv.options, inv.last)
  {
  }

  /** `coalesce!(a)` is `a`. */
  lemma SingleArgument<T>(a: Outcome<T>)
    ensures Expand([], a) == Run(a, 1)
  {
  }

  /** `coalesce!(Some(v), …)` is `v`, whatever follows, and nothing after the
      first argument is evaluated. */
  lemma FirstSomeWins<T>(v: T, rest: seq<Outcome<Option<T>>>, last: Outcome<T>)
    ensures Expand([Yields(Some(v))] + rest, last) == Run(Yields(v), 1)
  {
    assert ([Yields(Some(v))] + rest)[0] == Yields(Some(v));
  }

  /** `coalesce!(None, rest…)` has the outcome of `coalesce!(rest…)`, with one
      more argument evaluated. */
  lemma NoneUnrolls<T>(rest: seq<Outcome<Option<T>>>, last: Outcome<T>)
    ensures Expand([Yields(None)] + rest, last).outcome == Expand(rest, last).outcome
    ensures Expand([Yields(None)] + rest, last).evaluated == Expand(rest, last).evaluated + 1
  {
    assert ([Yields(None)] + rest)[1..] == rest;
  }

  /** Arguments after the deciding one are never evaluated: replacing them,
      and the fallback, changes nothing. */
  lemma LaterArgumentsIgnored<T>(options: seq<Outcome<Option<T>>>, last: Outcome<T>, i: nat,
                                 more: seq<Outcome<Option<T>>>, otherLast: Outcome<T>)
    requires i < |options| && Decides(options[i])
    requires NoneBefore(options, i)
    ensures Expand(options[..i + 1] + more, otherLast) == Expand(options, last)
  {
    var changed := options[..i + 1] + more;
    assert changed[i] == options[i];
    assert forall j :: 0 <= j < i ==> changed[j] == options[j];
  }

  /** `coalesce!(x, continue)` as the UI system uses it: the payload when
      `x` is `Some`, otherwise the loop iteration is skipped. */
  lemma OrContinue<T>(x: Option<T>)
    ensures Expand([Yields(x)], Escapes) == if x.Some? then Run(Yields(x.value), 1) else Run(Escapes, 2)
  {
  }
}
