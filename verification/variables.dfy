/**
  Placeholder substitution of postmanHelper.go: every stored key `k` is turned
  into the placeholder `{{k}}` and `strings.ReplaceAll` rewrites the text once per
  key. Go visits the entries of its map in an unspecified order, so the model
  receives that order explicitly as `order`, a permutation of the keys.
*/
module Variables {
  import opened Replace

  /** The variable store: name to value, as Go's `map[string]string`. */
  type Store = map<string, string>

  /**
    `fmt.Sprintf("{{%s}}", key)`: the key enclosed in two opening and two
    closing braces, so the key can be read back from between them.
  */
  function Placeholder(key: string): (p: string)
    ensures |p| == |key| + 4
    ensures p[..2] == "{{" && p[|p| - 2..] == "}}"
    ensures p[2..|p| - 2] == key
  {
    "{{" + key + "}}"
  }

  /** `order` lists every key of `vars` exactly once: one possible map iteration order. */
  predicate IsIterationOrder(vars: Store, order: seq<string>)
  {
    && (forall i :: 0 <= i < |order| ==> order[i] in vars)
    && (forall i, j :: 0 <= i < j < |order| ==> order[i] != order[j])
    && (forall k :: k in vars ==> k in order)
  }

  /** No `{{k}}` of a stored key `k` occurs in `text`. */
  predicate PlaceholderFree(text: string, vars: Store)
  {
    forall k :: k in vars ==> !Contains(text, Placeholder(k))
  }

  /** One `strings.ReplaceAll` per listed key, in the listed order. */
  function ApplyInOrder(text: string, vars: Store, order: seq<string>): string
    requires forall i :: 0 <= i < |order| ==> order[i] in vars
    decreases |order|
  {
    if |order| == 0 then text
    else ApplyInOrder(ReplaceAll(text, Placeholder(order[0]), vars[order[0]]), vars, order[1..])
  }

  /**
    `ReplaceVariables(text)` when the map is visited in `order`. Text holding no
    `{{k}}` for any stored key `k` comes back unchanged, whatever the order.
  */
  function ReplaceVariables(text: string, vars: Store, order: seq<string>): (r: string)
    requires IsIterationOrder(vars, order)
    ensures PlaceholderFree(text, vars) ==> r == text
  {
    ApplyWithoutPlaceholdersIsIdentity(text, vars, order);
    ApplyInOrder(text, vars, order)
  }

  /** An identifier that can stand between `{{` and `}}` without creating other braces. */
  predicate BraceFree(id: string)
  {
    forall i :: 0 <= i < |id| ==> id[i] != '{' && id[i] != '}'
  }

  // ---------------------------------------------------------------------------
  // Placeholder-free text is left alone

  lemma {:induction false} ApplyWithoutPlaceholdersIsIdentity(text: string, vars: Store, order: seq<string>)
    requires forall i :: 0 <= i < |order| ==> order[i] in vars
    ensures PlaceholderFree(text, vars) ==> ApplyInOrder(text, vars, order) == text
  {
    if |order| > 0 {
      ApplyWithoutPlaceholdersIsIdentity(text, vars, order[1..]);
    }
  }

  // ---------------------------------------------------------------------------
  // A single stored key

  /** A store with one key has exactly one iteration order. */
  lemma SingleKeyHasOneOrder(k: string, v: string, order: seq<string>)
    requires IsIterationOrder(map[k := v], order)
    ensures order == [k]
  {
    assert k in order;
    var last := |order| - 1;
    assert order[0] == k && order[last] == k;
  }

  /**
    With a single stored key `k`, the text is cut at every leftmost,
    non-overlapping `{{k}}` (no piece still holds one, and joining the pieces
    with `{{k}}` gives the text back) and the result joins the same pieces with
    the value.
  */
  lemma {:induction false} SingleVariableReplacesEveryOccurrence(text: string, k: string, v: string, order: seq<string>)
    requires IsIterationOrder(map[k := v], order)
    ensures Join(Split(text, Placeholder(k)), Placeholder(k)) == text
    ensures forall i :: 0 <= i < |Split(text, Placeholder(k))| ==>
      !Contains(Split(text, Placeholder(k))[i], Placeholder(k))
    ensures ReplaceVariables(text, map[k := v], order) == Join(Split(text, Placeholder(k)), v)
  {
    SingleKeyHasOneOrder(k, v, order);
    var p := Placeholder(k);
    SplitJoinRoundTrip(text, p);
    SplitPiecesAreFree(text, p);
    ReplaceAllIsJoinOfSplit(text, p, v);
    assert ApplyInOrder(text, map[k := v], [k]) == ApplyInOrder(ReplaceAll(text, p, v), map[k := v], []);
  }

  /** `ReplaceVariables("{{var1}}")` with `var1 -> value1` gives `value1`, under any iteration order. */
  lemma ReplaceVariablesExample(order: seq<string>)
    requires IsIterationOrder(map["var1" := "value1"], order)
    ensures ReplaceVariables("{{var1}}", map["var1" := "value1"], order) == "value1"
  {
    var vars := map["var1" := "value1"];
    SingleKeyHasOneOrder("var1", "value1", order);
    PlaceholderReplacesItself("var1", "value1");
    assert order[1..] == [];
    assert ApplyInOrder(Placeholder("var1"), vars, order) == ApplyInOrder("value1", vars, []);
    assert Placeholder("var1") == "{{var1}}";
  }

  // ---------------------------------------------------------------------------
  // Placeholders of unknown identifiers survive

  /** The brace layout of a placeholder whose identifier has no braces. */
  lemma PlaceholderShape(k: string)
    requires BraceFree(k)
    ensures |Placeholder(k)| == |k| + 4
    ensures forall j :: 0 <= j < |Placeholder(k)| ==> (Placeholder(k)[j] == '{' <==> j < 2)
    ensures forall j :: 0 <= j < |Placeholder(k)| ==> (Placeholder(k)[j] == '}' <==> j >= |k| + 2)
    ensures Placeholder(k)[2..|k| + 2] == k
  {
  }

  /** An occurrence fixes every character it covers. */
  lemma OccursAtChar(t: string, pat: string, i: int, j: int)
    requires OccursAt(t, pat, i)
    requires 0 <= j < |pat|
    ensures t[i + j] == pat[j]
  {
  }

  /** `{{k}}` cannot start before an occurrence of `{{u}}` and reach into it. */
  lemma NoOverlapFromLeft(t: string, x: int, i: int, u: string, k: string)
    requires BraceFree(u) && BraceFree(k)
    requires OccursAt(t, Placeholder(u), x) && i < x < i + |Placeholder(k)|
    ensures !OccursAt(t, Placeholder(k), i)
  {
    var p, q := Placeholder(k), Placeholder(u);
    PlaceholderShape(k);
    PlaceholderShape(u);
    if OccursAt(t, p, i) {
      OccursAtChar(t, p, i, x - i);
      OccursAtChar(t, q, x, 0);
      OccursAtChar(t, p, i, 2);
      OccursAtChar(t, q, x, 1);
    }
  }

  /** `{{k}}` cannot start strictly inside an occurrence of `{{u}}`. */
  lemma NoOverlapFromInside(t: string, x: int, i: int, u: string, k: string)
    requires BraceFree(u) && BraceFree(k)
    requires OccursAt(t, Placeholder(u), x) && x < i < x + |Placeholder(u)|
    ensures !OccursAt(t, Placeholder(k), i)
  {
    var p, q := Placeholder(k), Placeholder(u);
    PlaceholderShape(k);
    PlaceholderShape(u);
    if OccursAt(t, p, i) {
      OccursAtChar(t, p, i, 0);
      OccursAtChar(t, q, x, i - x);
      OccursAtChar(t, p, i, 1);
      OccursAtChar(t, q, x, 2);
    }
  }

  /** `{{k}}` and `{{u}}` cannot start at the same position when `k != u`. */
  lemma NoOverlapAtSameStart(t: string, x: int, u: string, k: string)
    requires BraceFree(u) && BraceFree(k) && u != k
    requires OccursAt(t, Placeholder(u), x)
    ensures !OccursAt(t, Placeholder(k), x)
  {
    var p, q := Placeholder(k), Placeholder(u);
    PlaceholderShape(k);
    PlaceholderShape(u);
    if OccursAt(t, p, x) {
      if |p| < |q| {
        OccursAtChar(t, p, x, |p| - 1);
        OccursAtChar(t, q, x, |p| - 1);
        OccursAtChar(t, p, x, |p| - 2);
        OccursAtChar(t, q, x, |p| - 2);
      } else if |p| > |q| {
        OccursAtChar(t, q, x, |q| - 1);
        OccursAtChar(t, p, x, |q| - 1);
        OccursAtChar(t, q, x, |q| - 2);
        OccursAtChar(t, p, x, |q| - 2);
      }
    }
  }

  /**
    Two placeholders of different brace-free identifiers never overlap: next to
    an occurrence of `{{u}}`, no occurrence of `{{k}}` shares a character with it.
  */
  lemma PlaceholdersDoNotOverlap(t: string, x: int, u: string, k: string)
    requires BraceFree(u) && BraceFree(k) && u != k
    requires OccursAt(t, Placeholder(u), x)
    ensures forall i :: x - |Placeholder(k)| < i < x + |Placeholder(u)| ==> !OccursAt(t, Placeholder(k), i)
  {
    forall i | x - |Placeholder(k)| < i < x + |Placeholder(u)|
      ensures !OccursAt(t, Placeholder(k), i)
    {
      if i < x {
        NoOverlapFromLeft(t, x, i, u, k);
      } else if i > x {
        NoOverlapFromInside(t, x, i, u, k);
      } else {
        NoOverlapAtSameStart(t, x, u, k);
      }
    }
  }

  /** No `{{k}}` starts before an occurrence of `{{u}}` and runs into it. */
  lemma NoStraddleBeforePlaceholder(a: string, u: string, b: string, k: string)
    requires BraceFree(u) && BraceFree(k) && u != k
    ensures NoStraddle(a, Placeholder(u) + b, Placeholder(k))
  {
    var q := Placeholder(u);
    var t := a + (q + b);
    assert t[|a|..|a| + |q|] == q;
    PlaceholdersDoNotOverlap(t, |a|, u, k);
  }

  /** No `{{k}}` starts inside an occurrence of `{{u}}` and runs past it. */
  lemma NoStraddleAfterPlaceholder(u: string, b: string, k: string)
    requires BraceFree(u) && BraceFree(k) && u != k
    ensures NoStraddle(Placeholder(u), b, Placeholder(k))
  {
    var q := Placeholder(u);
    assert (q + b)[..|q|] == q;
    PlaceholdersDoNotOverlap(q + b, 0, u, k);
  }

  /** `{{k}}` does not occur inside `{{u}}`. */
  lemma PlaceholderDoesNotContainOther(u: string, k: string)
    requires BraceFree(u) && BraceFree(k) && u != k
    ensures !Contains(Placeholder(u), Placeholder(k))
  {
    var q := Placeholder(u);
    assert q[0..|q|] == q;
    PlaceholdersDoNotOverlap(q, 0, u, k);
  }

  /** Replacing `{{k}}` in a text that starts with `{{u}}` keeps that start. */
  lemma ReplaceKeepsLeadingPlaceholder(u: string, b: string, k: string, v: string)
    requires BraceFree(u) && BraceFree(k) && u != k
    ensures ReplaceAll(Placeholder(u) + b, Placeholder(k), v) == Placeholder(u) + ReplaceAll(b, Placeholder(k), v)
  {
    var p, q := Placeholder(k), Placeholder(u);
    NoStraddleAfterPlaceholder(u, b, k);
    ReplaceSplitsAtBoundary(q, b, p, v);
    PlaceholderDoesNotContainOther(u, k);
    assert ReplaceAll(q, p, v) == q;
  }

  /** Replacing `{{k}}` keeps an occurrence of `{{u}}` and rewrites both sides of it separately. */
  lemma ReplaceKeepsOtherPlaceholder(a: string, u: string, b: string, k: string, v: string)
    requires BraceFree(u) && BraceFree(k) && u != k
    ensures ReplaceAll(a + Placeholder(u) + b, Placeholder(k), v)
         == ReplaceAll(a, Placeholder(k), v) + Placeholder(u) + ReplaceAll(b, Placeholder(k), v)
  {
    var p, q := Placeholder(k), Placeholder(u);
    assert a + q + b == a + (q + b);
    NoStraddleBeforePlaceholder(a, u, b, k);
    ReplaceSplitsAtBoundary(a, q + b, p, v);
    ReplaceKeepsLeadingPlaceholder(u, b, k, v);
  }

  lemma {:induction false} ApplyKeepsUnknownPlaceholder(a: string, u: string, b: string, vars: Store, order: seq<string>)
    requires forall i :: 0 <= i < |order| ==> order[i] in vars
    requires BraceFree(u) && u !in vars
    requires forall k :: k in vars ==> BraceFree(k)
    ensures ApplyInOrder(a + Placeholder(u) + b, vars, order)
         == ApplyInOrder(a, vars, order) + Placeholder(u) + ApplyInOrder(b, vars, order)
    decreases |order|
  {
    if |order| > 0 {
      var k := order[0];
      ReplaceKeepsOtherPlaceholder(a, u, b, k, vars[k]);
      ApplyKeepsUnknownPlaceholder(
        ReplaceAll(a, Placeholder(k), vars[k]), u, ReplaceAll(b, Placeholder(k), vars[k]), vars, order[1..]);
    }
  }

  /**
    A placeholder whose identifier is not a stored key survives verbatim, and
    the text on either side of it is resolved as if it stood alone (identifiers
    and keys free of braces).
  */
  lemma UnknownPlaceholderSurvives(a: string, u: string, b: string, vars: Store, order: seq<string>)
    requires IsIterationOrder(vars, order)
    requires BraceFree(u) && u !in vars
    requires forall k :: k in vars ==> BraceFree(k)
    ensures ReplaceVariables(a + Placeholder(u) + b, vars, order)
         == ReplaceVariables(a, vars, order) + Placeholder(u) + ReplaceVariables(b, vars, order)
  {
    ApplyKeepsUnknownPlaceholder(a, u, b, vars, order);
  }

  // ---------------------------------------------------------------------------
  // The map's iteration order is observable

  /** A placeholder replaced by itself becomes the value. */
  lemma PlaceholderReplacesItself(k: string, v: string)
    ensures ReplaceAll(Placeholder(k), Placeholder(k), v) == v
  {
    var p := Placeholder(k);
    assert p[..|p|] == p && p[|p|..] == [];
    assert ReplaceNonEmpty(p[|p|..], p, v) == [];
    assert ReplaceNonEmpty(p, p, v) == v + ReplaceNonEmpty(p[|p|..], p, v);
  }

  /** With `a` visited first, the value `{{b}}` it inserts is resolved afterwards. */
  lemma ResolvedWhenInsertedFirst()
    ensures ReplaceVariables("{{a}}", map["a" := "{{b}}", "b" := "x"], ["a", "b"]) == "x"
  {
    var vars := map["a" := "{{b}}", "b" := "x"];
    var pa, pb := Placeholder("a"), Placeholder("b");
    PlaceholderReplacesItself("a", "{{b}}");
    PlaceholderReplacesItself("b", "x");
    var ab: seq<string> := ["a", "b"];
    assert ab[1..] == ["b"];
    assert ApplyInOrder(pa, vars, ab) == ApplyInOrder(pb, vars, ["b"]) == ApplyInOrder("x", vars, []);
    assert pa == "{{a}}";
  }

  /** With `b` visited first, the `{{b}}` inserted for `a` is never resolved. */
  lemma KeptWhenInsertedLast()
    ensures ReplaceVariables("{{a}}", map["a" := "{{b}}", "b" := "x"], ["b", "a"]) == "{{b}}"
  {
    var vars := map["a" := "{{b}}", "b" := "x"];
    var pa, pb := Placeholder("a"), Placeholder("b");
    PlaceholderReplacesItself("a", "{{b}}");
    assert pa[2] == 'a' && pb[2] == 'b';
    assert pa[..5] != pb;
    assert ReplaceAll(pa, pb, "x") == pa;
    var ba: seq<string>, oa: seq<string> := ["b", "a"], ["a"];
    assert ba[1..] == oa && oa[1..] == [];
    assert ApplyInOrder(pa, vars, ba) == ApplyInOrder(pa, vars, oa) == ApplyInOrder("{{b}}", vars, []);
    assert pa == "{{a}}";
  }

  /**
    Substitution is not single-pass: a value that contains another key's
    placeholder is resolved or not depending on which key the map visits first.
  */
  lemma IterationOrderIsObservable()
    ensures var vars := map["a" := "{{b}}", "b" := "x"];
      && IsIterationOrder(vars, ["a", "b"])
      && IsIterationOrder(vars, ["b", "a"])
      && ReplaceVariables("{{a}}", vars, ["a", "b"]) == "x"
      && ReplaceVariables("{{a}}", vars, ["b", "a"]) == "{{b}}"
  {
    ResolvedWhenInsertedFirst();
    KeptWhenInsertedLast();
  }
}
