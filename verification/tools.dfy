/** The agent's tool plumbing that does not call into the simulator: the
    `prompts` decorator that labels a tool function, and the text the
    "Get Available Actions" tool returns. */
module AgentTools {
  import opened Text

  // ---------------------------------------------------------------------------
  // prompts
  // ---------------------------------------------------------------------------

  /** A Python function object: its identity and its attribute dictionary. */
  datatype FuncObj = FuncObj(identity: nat, attrs: map<string, string>)

  /** `prompts(name, description)(func)`: the same function object, with
      `.name` and `.description` set and every other attribute untouched. */
  function Prompts(name: string, description: string, func: FuncObj): (f: FuncObj)
    ensures f.identity == func.identity
    ensures "name" in f.attrs && f.attrs["name"] == name
    ensures "description" in f.attrs && f.attrs["description"] == description
    ensures forall k :: k != "name" && k != "description" ==>
      (k in f.attrs <==> k in func.attrs) && (k in func.attrs ==> f.attrs[k] == func.attrs[k])
  {
    func.(attrs := func.attrs["name" := name]["description" := description])
  }

  /** Decorating twice keeps the second labels: the decorator never stacks. */
  lemma PromptsOverrides(n1: string, d1: string, n2: string, d2: string, func: FuncObj)
    ensures Prompts(n2, d2, Prompts(n1, d1, func)) == Prompts(n2, d2, func)
  {
    var a := Prompts(n2, d2, Prompts(n1, d1, func)).attrs;
    var b := Prompts(n2, d2, func).attrs;
    assert a.Keys == b.Keys;
    forall k | k in a
      ensures a[k] == b[k]
    {
    }
  }

  // ---------------------------------------------------------------------------
  // GetAvailableActions.inference
  // ---------------------------------------------------------------------------

  /** The text before the action lines. */
  const Prefix: string := "You can ONLY use one of the following actions: \n"

  /** The text after the action lines. */
  const Suffix: string := "\nTo check decision safety and efficiency you should follow steps:"

  /** The line describing one action, `action` being its `str()`. */
  function ActionLine(action: string): string {
    "- Phase " + action + " to be green: Make Phase " + action + " green light and the other phases red lights.\n"
  }

  /** The action lines, one per action, in order. */
  function Lines(actions: seq<string>): string {
    if |actions| == 0 then "" else Lines(actions[..|actions| - 1]) + ActionLine(actions[|actions| - 1])
  }

  /** `GetAvailableActions.inference`: the prefix, one line per action the
      environment returns (in that order), then the suffix. */
  method Inference(actions: seq<string>) returns (output: string)
    ensures output == Prefix + Lines(actions) + Suffix
    ensures StartsWith(output, Prefix) && EndsWith(output, Suffix)
    ensures |actions| == 0 ==> output == Prefix + Suffix
  {
    output := Prefix;
    for i := 0 to |actions|
      invariant output == Prefix + Lines(actions[..i])
    {
      LinesStep(actions, i);
      Regroup(Prefix, Lines(actions[..i]), ActionLine(actions[i]));
      output := output + ActionLine(actions[i]);
    }
    assert actions[..|actions|] == actions;
    output := output + Suffix;
    Framed(Prefix, Lines(actions), Suffix);
  }

  /** Text built as `p + m + s` starts with `p` and ends with `s`. */
  lemma Framed(p: string, m: string, s: string)
    ensures StartsWith(p + m + s, p) && EndsWith(p + m + s, s)
  {
    assert (p + m + s)[..|p|] == p;
    assert (p + m + s)[|p + m + s| - |s|..] == s;
  }

  /** The lines of two runs of actions are the lines of each, in order. */
  lemma {:induction false} LinesConcat(xs: seq<string>, ys: seq<string>)
    ensures Lines(xs + ys) == Lines(xs) + Lines(ys)
    decreases |ys|
  {
    if |ys| == 0 {
      assert xs + ys == xs;
    } else {
      var init := ys[..|ys| - 1];
      var last := ys[|ys| - 1];
      assert ys == init + [last];
      assert xs + ys == (xs + init) + [last];
      LinesConcat(xs, init);
      LinesSnoc(xs + init, last);
      LinesSnoc(init, last);
      Regroup(Lines(xs), Lines(init), ActionLine(last));
    }
  }

  lemma Regroup(a: string, b: string, c: string)
    ensures (a + b) + c == a + (b + c)
  {
  }

  /** One more action adds its line at the end. */
  lemma LinesSnoc(zs: seq<string>, x: string)
    ensures Lines(zs + [x]) == Lines(zs) + ActionLine(x)
  {
    assert (zs + [x])[..|zs|] == zs;
  }

  /** Action `a`'s line sits in the output right after the prefix and the lines
      of the actions before it: one line per action, in the environment's order. */
  lemma LineOfAction(actions: seq<string>, a: nat)
    requires a < |actions|
    ensures OccursAt(Prefix + Lines(actions) + Suffix, ActionLine(actions[a]), |Prefix| + |Lines(actions[..a])|)
  {
    LineBetween(Prefix, Suffix, actions, a);
  }

  lemma LineBetween(pre: string, suf: string, actions: seq<string>, a: nat)
    requires a < |actions|
    ensures OccursAt(pre + Lines(actions) + suf, ActionLine(actions[a]), |pre| + |Lines(actions[..a])|)
  {
    LinesAround(actions, a);
    OccursBetween(pre, Lines(actions[..a]), ActionLine(actions[a]), Lines(actions[a + 1..]), suf);
  }

  /** A piece framed by known text on both sides occurs right after the text before it. */
  lemma OccursBetween(pre: string, before: string, mid: string, after: string, suf: string)
    ensures OccursAt(pre + (before + mid + after) + suf, mid, |pre| + |before|)
  {
    assert pre + (before + mid + after) + suf == (pre + before) + mid + (after + suf);
    SliceOfConcat(pre + before, mid, after + suf);
  }

  /** The lines of all actions are those before action `a`, its own line and
      those after it. */
  lemma LinesAround(actions: seq<string>, a: nat)
    requires a < |actions|
    ensures Lines(actions) == Lines(actions[..a]) + ActionLine(actions[a]) + Lines(actions[a + 1..])
  {
    var head := actions[..a + 1];
    var ys := actions[a + 1..];
    LinesStep(actions, a);
    SplitAfter(actions, a + 1);
    LinesConcat(head, ys);
  }

  /** The lines of the first `a + 1` actions extend those of the first `a`. */
  lemma LinesStep(actions: seq<string>, a: nat)
    requires a < |actions|
    ensures Lines(actions[..a + 1]) == Lines(actions[..a]) + ActionLine(actions[a])
  {
    assert actions[..a + 1][..a] == actions[..a];
  }

  /** A sequence is its first `n` elements followed by the rest. */
  lemma SplitAfter<T>(xs: seq<T>, n: nat)
    requires n <= |xs|
    ensures xs == xs[..n] + xs[n..]
  {
  }

  lemma SliceOfConcat(x: string, y: string, z: string)
    ensures (x + y + z)[|x|..|x| + |y|] == y
  {
  }
}
