/** `_levenshtein` and `query_drift` of `l2_probes.py`: the two-row dynamic program against the recursive
    edit distance and against edit scripts, and the metric laws. */
module EditDistance {
  import opened Numbers
  import opened PyText

  function Cost(x: char, y: char): nat {
    if x == y then 0 else 1
  }

  /** The recursive edit distance, over last characters. */
  function Distance(a: string, b: string): nat
    decreases |a| + |b|
  {
    if a == "" then |b|
    else if b == "" then |a|
    else
      var a', b' := a[..|a| - 1], b[..|b| - 1];
      Min(Min(Distance(a, b') + 1, Distance(a', b) + 1), Distance(a', b') + Cost(a[|a| - 1], b[|b| - 1]))
  }

  // ---------------------------------------------------------------- the dynamic program

  /** What the row for the first `i` characters of `a` holds. */
  predicate IsRow(a: string, b: string, i: nat, row: seq<nat>)
    requires i <= |a|
  {
    |row| <= |b| + 1 && forall j :: 0 <= j < |row| ==> row[j] == Distance(a[..i], b[..j])
  }

  lemma FirstColumn(a: string, b: string, i: nat)
    requires i <= |a|
    ensures Distance(a[..i], b[..0]) == i
  {}

  lemma DistanceOfLasts(a: string, b: string)
    requires a != "" && b != ""
    ensures var a', b' := a[..|a| - 1], b[..|b| - 1];
            Distance(a, b) ==
            Min(Min(Distance(a, b') + 1, Distance(a', b) + 1), Distance(a', b') + Cost(a[|a| - 1], b[|b| - 1]))
  {}

  lemma DistanceStep(a: string, b: string, i: nat, j: nat)
    requires i < |a| && j < |b|
    ensures Distance(a[..i + 1], b[..j + 1]) ==
            Min(Min(Distance(a[..i + 1], b[..j]) + 1, Distance(a[..i], b[..j + 1]) + 1),
                Distance(a[..i], b[..j]) + Cost(a[i], b[j]))
  {
    hide Distance;
    var x, y := a[..i + 1], b[..j + 1];
    DistanceOfLasts(x, y);
    assert x[..i] == a[..i] && y[..j] == b[..j] && x[i] == a[i] && y[j] == b[j];
  }

  /** The inner loop: the next row from the previous one. */
  method NextRow(a: string, b: string, i: nat, prev: seq<nat>) returns (cur: seq<nat>)
    requires i < |a| && |prev| == |b| + 1 && IsRow(a, b, i, prev)
    ensures |cur| == |b| + 1 && IsRow(a, b, i + 1, cur)
  {
    hide Distance;
    FirstColumn(a, b, i + 1);
    cur := [i + 1];
    for j := 0 to |b|
      invariant |cur| == j + 1
      invariant IsRow(a, b, i + 1, cur)
    {
      var ins := cur[j] + 1;
      var delete := prev[j + 1] + 1;
      var sub := prev[j] + if a[i] == b[j] then 0 else 1;
      DistanceStep(a, b, i, j);
      cur := cur + [Min(Min(ins, delete), sub)];
    }
  }

  /** `_levenshtein` */
  method Levenshtein(a: string, b: string) returns (d: nat)
    ensures d == Distance(a, b)
  {
    if a == b {
      SelfDistance(a);
      return 0;
    }
    if a == "" {
      return |b|;
    }
    if b == "" {
      return |a|;
    }
    var prev: seq<nat> := seq(|b| + 1, j => j);
    for i := 0 to |a|
      invariant |prev| == |b| + 1 && IsRow(a, b, i, prev)
    {
      prev := NextRow(a, b, i, prev);
    }
    assert a[..|a|] == a && b[..|b|] == b;
    return prev[|prev| - 1];
  }

  // ---------------------------------------------------------------- edit scripts

  datatype Op = Keep | Delete | Insert(c: char) | Replace(c: char)

  /** What one run of an edit script turns `a` into, read from the end; the script must use up `a`. */
  predicate Edits(script: seq<Op>, a: string, b: string)
    decreases |script|
  {
    if script == [] then a == "" && b == ""
    else
      var rest := script[..|script| - 1];
      match script[|script| - 1]
      case Keep => a != "" && b != "" && a[|a| - 1] == b[|b| - 1] && Edits(rest, a[..|a| - 1], b[..|b| - 1])
      case Delete => a != "" && Edits(rest, a[..|a| - 1], b)
      case Insert(c) => b != "" && b[|b| - 1] == c && Edits(rest, a, b[..|b| - 1])
      case Replace(c) => a != "" && b != "" && b[|b| - 1] == c && Edits(rest, a[..|a| - 1], b[..|b| - 1])
  }

  function ScriptCost(script: seq<Op>): nat {
    if script == [] then 0
    else ScriptCost(script[..|script| - 1]) + if script[|script| - 1] == Keep then 0 else 1
  }

  /** No edit script is cheaper than the distance. */
  lemma {:induction false} ScriptsCostAtLeast(script: seq<Op>, a: string, b: string)
    requires Edits(script, a, b)
    ensures Distance(a, b) <= ScriptCost(script)
    decreases |script|
  {
    if script == [] {
    } else {
      var rest := script[..|script| - 1];
      match script[|script| - 1]
      case Keep => ScriptsCostAtLeast(rest, a[..|a| - 1], b[..|b| - 1]);
      case Delete =>
        ScriptsCostAtLeast(rest, a[..|a| - 1], b);
        DistanceBounds(a[..|a| - 1], b);
      case Insert(c) =>
        ScriptsCostAtLeast(rest, a, b[..|b| - 1]);
        DistanceBounds(a, b[..|b| - 1]);
      case Replace(c) => ScriptsCostAtLeast(rest, a[..|a| - 1], b[..|b| - 1]);
    }
  }

  /** Some edit script costs exactly the distance. */
  lemma {:induction false} CheapestScript(a: string, b: string) returns (script: seq<Op>)
    ensures Edits(script, a, b) && ScriptCost(script) == Distance(a, b)
    decreases |a| + |b|
  {
    var op: Op;
    if a == "" && b == "" {
      return [];
    } else if a == "" {
      script := CheapestScript(a, b[..|b| - 1]);
      op := Insert(b[|b| - 1]);
    } else if b == "" {
      script := CheapestScript(a[..|a| - 1], b);
      op := Delete;
    } else {
      var a', b', x, y := a[..|a| - 1], b[..|b| - 1], a[|a| - 1], b[|b| - 1];
      if Distance(a, b) == Distance(a, b') + 1 {
        script := CheapestScript(a, b');
        op := Insert(y);
      } else if Distance(a, b) == Distance(a', b) + 1 {
        script := CheapestScript(a', b);
        op := Delete;
      } else {
        script := CheapestScript(a', b');
        op := if x == y then Keep else Replace(y);
      }
    }
    assert (script + [op])[..|script|] == script;
    script := script + [op];
  }

  /** The distance is the least cost of an edit script. */
  lemma DistanceIsLeastCost(a: string, b: string)
    ensures exists script :: Edits(script, a, b) && ScriptCost(script) == Distance(a, b)
    ensures forall script :: Edits(script, a, b) ==> Distance(a, b) <= ScriptCost(script)
  {
    var best := CheapestScript(a, b);
    forall script | Edits(script, a, b)
      ensures Distance(a, b) <= ScriptCost(script)
    {
      ScriptsCostAtLeast(script, a, b);
    }
  }

  // ---------------------------------------------------------------- metric laws

  lemma {:induction false} SelfDistance(a: string)
    ensures Distance(a, a) == 0
  {
    if a == "" {
    } else {
      SelfDistance(a[..|a| - 1]);
    }
  }

  /** The distance is at least the difference and at most the maximum of the lengths. */
  lemma {:induction false} DistanceBounds(a: string, b: string)
    ensures |a| <= |b| + Distance(a, b) && |b| <= |a| + Distance(a, b)
    ensures Distance(a, b) <= Max(|a|, |b|)
    decreases |a| + |b|
  {
    if a != "" && b != "" {
      DistanceBounds(a, b[..|b| - 1]);
      DistanceBounds(a[..|a| - 1], b);
      DistanceBounds(a[..|a| - 1], b[..|b| - 1]);
    }
  }

  lemma {:induction false} ZeroIffEqual(a: string, b: string)
    ensures Distance(a, b) == 0 <==> a == b
    decreases |a| + |b|
  {
    if a == b {
      SelfDistance(a);
    } else if a != "" && b != "" {
      var a', b' := a[..|a| - 1], b[..|b| - 1];
      ZeroIffEqual(a', b');
      assert a == a' + [a[|a| - 1]] && b == b' + [b[|b| - 1]];
    }
  }

  lemma {:induction false} Symmetric(a: string, b: string)
    ensures Distance(a, b) == Distance(b, a)
    decreases |a| + |b|
  {
    if a != "" && b != "" {
      Symmetric(a, b[..|b| - 1]);
      Symmetric(a[..|a| - 1], b);
      Symmetric(a[..|a| - 1], b[..|b| - 1]);
    }
  }

  /** One character more on either side costs at most one. */
  lemma OneMore(a: string, b: string)
    ensures a != "" ==> Distance(a, b) <= Distance(a[..|a| - 1], b) + 1
    ensures b != "" ==> Distance(a, b) <= Distance(a, b[..|b| - 1]) + 1
  {}

  lemma {:induction false} Triangle(a: string, b: string, c: string)
    ensures Distance(a, c) <= Distance(a, b) + Distance(b, c)
    decreases |a| + |b| + |c|
  {
    if a == "" || b == "" || c == "" {
      DistanceBounds(a, b);
      DistanceBounds(b, c);
      DistanceBounds(a, c);
    } else {
      var a', b', c' := a[..|a| - 1], b[..|b| - 1], c[..|c| - 1];
      OneMore(a, c);
      if Distance(a, b) == Distance(a', b) + 1 {
        Triangle(a', b, c);
      } else if Distance(b, c) == Distance(b, c') + 1 {
        Triangle(a, b, c');
      } else if Distance(a, b) == Distance(a, b') + 1 {
        if Distance(b, c) == Distance(b', c) + 1 {
          Triangle(a, b', c);
        } else {
          Triangle(a, b', c');
        }
      } else if Distance(b, c) == Distance(b', c) + 1 {
        Triangle(a', b', c);
      } else {
        Triangle(a', b', c');
      }
    }
  }

  // ---------------------------------------------------------------- drift

  /** `re.sub(r"\s+", " ", s)` */
  function Collapse(s: string): string {
    if s == "" then ""
    else if !IsSpace(s[0]) then [s[0]] + Collapse(s[1..])
    else if |s| > 1 && IsSpace(s[1]) then Collapse(s[1..])
    else " " + Collapse(s[1..])
  }

  /** `normalize_query`, over the lower-casing `lower`. */
  function NormalizeQuery(text: string, lower: string -> string): string {
    Collapse(lower(Strip(text)))
  }

  /** The normalized edit distance of two texts. */
  function Drift(a: string, b: string): real {
    if a == "" && b == "" then 0.0
    else Distance(a, b) as real / Max(|a|, |b|) as real
  }

  lemma Quotient(x: nat, y: nat)
    requires x <= y && 0 < y
    ensures 0.0 <= x as real / y as real <= 1.0
    ensures x as real / y as real == 0.0 <==> x == 0
    ensures x == y ==> x as real / y as real == 1.0
  {}

  lemma OneEmpty(a: string, b: string)
    requires (a == "") != (b == "")
    ensures Drift(a, b) == 1.0
  {
    hide Distance;
    DistanceBounds(a, b);
    Quotient(Distance(a, b), Max(|a|, |b|));
  }

  /** `query_drift`, in exact arithmetic. */
  method QueryDrift(original: string, used: string, lower: string -> string) returns (drift: real)
    ensures drift == Drift(NormalizeQuery(original, lower), NormalizeQuery(used, lower))
  {
    hide NormalizeQuery, Distance;
    var a, b := NormalizeQuery(original, lower), NormalizeQuery(used, lower);
    if a == "" && b == "" {
      return 0.0;
    }
    if a == "" || b == "" {
      OneEmpty(a, b);
      return 1.0;
    }
    var dist := Levenshtein(a, b);
    return dist as real / Max(|a|, |b|) as real;
  }

  /** The drift lies in [0, 1], does not depend on which query came first, and is 0 exactly for equal
      normalized queries. */
  lemma DriftLaws(original: string, used: string, lower: string -> string)
    ensures var a, b := NormalizeQuery(original, lower), NormalizeQuery(used, lower);
            0.0 <= Drift(a, b) <= 1.0 && (Drift(a, b) == 0.0 <==> a == b) && Drift(a, b) == Drift(b, a)
  {
    hide NormalizeQuery, Distance;
    var a, b := NormalizeQuery(original, lower), NormalizeQuery(used, lower);
    DistanceBounds(a, b);
    ZeroIffEqual(a, b);
    Symmetric(a, b);
    if a != "" || b != "" {
      Quotient(Distance(a, b), Max(|a|, |b|));
    }
  }
}
