// The colour of an event several members share: a chain of pairwise CSS mixes that should come
// to the average of their colours.

module MemberColour {

  /** A CSS colour: a custom property, or a mix in which `token` weighs `percent`. */
  datatype Css = Var(token: string) | Mix(acc: Css, token: string, percent: real)

  /** One channel of what a browser makes of it. */
  function Eval(css: Css, colours: string -> real): real {
    match css
    case Var(token) => colours(token)
    case Mix(acc, token, percent) => Blend(Eval(acc, colours), colours(token), percent / 100.0)
  }

  /** `share` of `colour`, and the rest of `acc`. */
  function Blend(acc: real, colour: real, share: real): real {
    acc * (1.0 - share) + colour * share
  }

  /** The percentage that makes the n-th colour an equal among n. */
  function ExactPercent(n: nat): real
    requires n > 0
  {
    100.0 / n as real
  }

  /** To the nearest decimal with four places, a tie to the even one. */
  function FourPlaces(x: real): real {
    var below := (x * 10000.0).Floor;
    var over := x * 10000.0 - below as real;
    var nearest := if over < 0.5 || (over == 0.5 && below % 2 == 0) then below else below + 1;
    nearest as real / 10000.0
  }

  /** Mixing in one colour after another, the n-th at `percent(n)`. */
  function Chain(tokens: seq<string>, percent: nat --> real): Css
    requires tokens != [] && forall n: nat :: n > 0 ==> percent.requires(n)
  {
    if |tokens| == 1 then Var(tokens[0])
    else
      var last := |tokens| - 1;
      Mix(Chain(tokens[..last], percent), tokens[last], percent(|tokens|))
  }

  function WrittenPercent(n: nat): real
    requires n > 0
  {
    FourPlaces(ExactPercent(n))
  }

  lemma LastMix(tokens: seq<string>, percent: nat --> real, colours: string -> real)
    requires |tokens| > 1 && forall n: nat :: n > 0 ==> percent.requires(n)
    ensures Eval(Chain(tokens, percent), colours) ==
            Blend(Eval(Chain(tokens[..|tokens| - 1], percent), colours), colours(tokens[|tokens| - 1]),
                  percent(|tokens|) / 100.0)
  {
    var css := Chain(tokens, percent);
    assert css.Mix?;
  }

  method CombinedMemberColour(tokens: seq<string>) returns (css: Css)
    ensures css == if tokens == [] then Var("--accent") else Chain(tokens, WrittenPercent)
  {
    if tokens == [] {
      return Var("--accent");
    }
    if |tokens| == 1 {
      return Var(tokens[0]);
    }
    var rest := tokens[1..];
    css := Var(tokens[0]);
    for i := 0 to |rest|
      invariant css == Chain(tokens[..i + 1], WrittenPercent)
    {
      var weight := 100.0 / (i as real + 2.0);
      assert tokens[..i + 2][..i + 1] == tokens[..i + 1];
      assert (i + 2) as real == i as real + 2.0;
      css := Mix(css, rest[i], FourPlaces(weight));
    }
    assert tokens[..|tokens|] == tokens;
  }

  // ---- The average -----------------------------------------------------------------------------

  function Total(tokens: seq<string>, colours: string -> real): real {
    if tokens == [] then 0.0
    else Total(tokens[..|tokens| - 1], colours) + colours(tokens[|tokens| - 1])
  }

  function Average(tokens: seq<string>, colours: string -> real): real
    requires tokens != []
  {
    Total(tokens, colours) / |tokens| as real
  }

  lemma TotalSplit(before: seq<string>, token: string, after: seq<string>, colours: string -> real)
    ensures Total(before + [token] + after, colours) == Total(before + after, colours) + colours(token)
  {
    if after == [] {
      assert before + [token] + after == before + [token];
      assert before + after == before;
    } else {
      var n := |after| - 1;
      TotalSplit(before, token, after[..n], colours);
      assert (before + [token] + after)[..|before| + 1 + n] == before + [token] + after[..n];
      assert (before + after)[..|before| + n] == before + after[..n];
    }
  }

  lemma WithoutLast(rest: seq<string>, last: string, before: seq<string>, after: seq<string>)
    requires multiset(rest + [last]) == multiset(before + [last] + after)
    ensures multiset(rest) == multiset(before + after)
  {
    assert multiset(rest + [last]) == multiset(rest) + multiset{last};
    assert multiset(before + [last] + after) == multiset(before) + multiset{last} + multiset(after);
    assert multiset(before + after) == multiset(before) + multiset(after);
    assert multiset(rest) == multiset(rest + [last]) - multiset{last};
  }

  lemma {:induction false} TotalInAnyOrder(tokens: seq<string>, other: seq<string>, colours: string -> real)
    requires multiset(tokens) == multiset(other)
    ensures Total(tokens, colours) == Total(other, colours)
    decreases |tokens|
  {
    if tokens == [] {
      assert |multiset(other)| == 0;
    } else {
      var rest, last := tokens[..|tokens| - 1], tokens[|tokens| - 1];
      assert tokens == rest + [last];
      assert last in multiset(tokens);
      assert last in multiset(other);
      var i :| 0 <= i < |other| && other[i] == last;
      var before, after := other[..i], other[i + 1..];
      assert other == before + [last] + after;
      WithoutLast(rest, last, before, after);
      TotalInAnyOrder(rest, before + after, colours);
      TotalSplit(before, last, after, colours);
    }
  }

  /** The average of one more colour, from the average so far. */
  lemma AverageStep(tokens: seq<string>, colours: string -> real)
    requires |tokens| > 1
    ensures var last := |tokens| - 1;
            Average(tokens, colours) ==
            Blend(Average(tokens[..last], colours), colours(tokens[last]), 1.0 / |tokens| as real)
  {
    var last := |tokens| - 1;
    var n := |tokens| as real;
    var w := 1.0 / n;
    var total := Total(tokens[..last], colours);
    assert last as real == n - 1.0;
    Shares(total, n);
    assert (total + colours(tokens[last])) / n == total / n + colours(tokens[last]) * w;
  }

  lemma Shares(total: real, n: real)
    requires n > 1.0
    ensures total / (n - 1.0) * (1.0 - 1.0 / n) == total / n
  {
    var q := total / (n - 1.0);
    assert total == q * (n - 1.0);
    assert 1.0 - 1.0 / n == (n - 1.0) / n;
    assert q * ((n - 1.0) / n) == q * (n - 1.0) / n;
  }

  /** With exact weights the chain is the average, so the members' order does not show. */
  lemma {:induction false} ExactChainIsAverage(tokens: seq<string>, colours: string -> real)
    requires tokens != []
    ensures Eval(Chain(tokens, ExactPercent), colours) == Average(tokens, colours)
  {
    if |tokens| > 1 {
      var last := |tokens| - 1;
      ExactChainIsAverage(tokens[..last], colours);
      AverageStep(tokens, colours);
      LastMix(tokens, ExactPercent, colours);
      assert ExactPercent(|tokens|) / 100.0 == 1.0 / |tokens| as real;
    } else {
      assert Total(tokens, colours) == 0.0 + colours(tokens[0]);
    }
  }

  lemma ExactChainInAnyOrder(tokens: seq<string>, other: seq<string>, colours: string -> real)
    requires tokens != [] && multiset(tokens) == multiset(other)
    ensures |other| == |tokens|
    ensures Eval(Chain(tokens, ExactPercent), colours) == Eval(Chain(other, ExactPercent), colours)
  {
    assert |multiset(tokens)| == |tokens| && |multiset(other)| == |other|;
    TotalInAnyOrder(tokens, other, colours);
    ExactChainIsAverage(tokens, colours);
    ExactChainIsAverage(other, colours);
  }

  // ---- Four decimals -----------------------------------------------------------------------------

  function Distance(x: real, y: real): real {
    if x >= y then x - y else y - x
  }

  ghost predicate ColoursWithin(tokens: seq<string>, colours: string -> real, low: real, high: real) {
    forall i :: 0 <= i < |tokens| ==> low <= colours(tokens[i]) <= high
  }

  lemma FourPlacesNear(x: real)
    requires 0.0 <= x <= 100.0
    ensures Distance(FourPlaces(x), x) <= 0.00005
    ensures 0.0 <= FourPlaces(x) <= 100.0
  {
    var below := (x * 10000.0).Floor;
    assert below as real <= x * 10000.0 < below as real + 1.0;
    assert 0 <= below <= 1000000;
    assert below == 1000000 ==> x * 10000.0 == below as real;
  }

  /** The nearest whole number of ten-thousandths, and of two as near the even one. */
  lemma FourPlacesExactly(x: real) returns (n: int)
    ensures FourPlaces(x) * 10000.0 == n as real
    ensures Distance(n as real, x * 10000.0) <= 0.5
    ensures Distance(n as real, x * 10000.0) == 0.5 ==> n % 2 == 0
  {
    var below := (x * 10000.0).Floor;
    assert below as real <= x * 10000.0 < below as real + 1.0;
    n := if FourPlaces(x) == below as real / 10000.0 then below else below + 1;
  }

  lemma {:induction false} AverageWithin(tokens: seq<string>, colours: string -> real, low: real, high: real)
    requires tokens != [] && ColoursWithin(tokens, colours, low, high)
    ensures low <= Average(tokens, colours) <= high
  {
    TotalWithin(tokens, colours, low, high);
    var n := |tokens| as real;
    var average := Total(tokens, colours) / n;
    assert average * n == Total(tokens, colours);
    assert low * n <= average * n <= high * n;
  }

  lemma {:induction false} TotalWithin(tokens: seq<string>, colours: string -> real, low: real, high: real)
    requires ColoursWithin(tokens, colours, low, high)
    ensures low * |tokens| as real <= Total(tokens, colours) <= high * |tokens| as real
  {
    if tokens != [] {
      var last := |tokens| - 1;
      TotalWithin(tokens[..last], colours, low, high);
      assert |tokens| as real == last as real + 1.0;
    }
  }

  /** One mix with a slightly wrong weight, onto a slightly wrong accumulator. */
  lemma MixError(acc: real, mean: real, x: real, w': real, w: real, error: real, spread: real, slip: real)
    requires Distance(acc, mean) <= error && Distance(x, mean) <= spread && Distance(w', w) <= slip
    requires 0.0 <= w' <= 1.0
    ensures Distance(Blend(acc, x, w'), Blend(mean, x, w)) <= error + spread * slip
  {
    var kept, moved := (acc - mean) * (1.0 - w'), (x - mean) * (w' - w);
    assert acc * (1.0 - w') + x * w' - (mean * (1.0 - w) + x * w) == kept + moved;
    Scaled(acc - mean, 1.0 - w', error, 1.0);
    Scaled(x - mean, w' - w, spread, slip);
  }

  lemma Scaled(a: real, b: real, boundA: real, boundB: real)
    requires -boundA <= a <= boundA && -boundB <= b <= boundB
    ensures -(boundA * boundB) <= a * b <= boundA * boundB
  {
    var p, q := if a >= 0.0 then a else -a, if b >= 0.0 then b else -b;
    assert p * q <= boundA * q <= boundA * boundB;
    assert a * b == p * q || a * b == -(p * q);
  }

  /** Half a millionth of the spread, for each mix. */
  function Slack(mixes: int, spread: real): real {
    mixes as real * (spread * 0.0000005)
  }

  lemma SlackOfOneMore(mixes: int, spread: real)
    ensures Slack(mixes + 1, spread) == Slack(mixes, spread) + spread * 0.0000005
  {
    var one := spread * 0.0000005;
    assert (mixes + 1) as real == mixes as real + 1.0;
    assert (mixes as real + 1.0) * one == mixes as real * one + one;
  }

  lemma OneMoreMix(tokens: seq<string>, percent: nat --> real, colours: string -> real,
                   low: real, high: real, error: real)
    requires |tokens| > 1 && ColoursWithin(tokens, colours, low, high)
    requires forall n: nat :: n > 0 ==> percent.requires(n)
    requires var rest := tokens[..|tokens| - 1];
             Distance(Eval(Chain(rest, percent), colours), Average(rest, colours)) <= error
    requires Distance(percent(|tokens|) / 100.0, 1.0 / |tokens| as real) <= 0.0000005
    requires 0.0 <= percent(|tokens|) / 100.0 <= 1.0
    ensures Distance(Eval(Chain(tokens, percent), colours), Average(tokens, colours))
            <= error + (high - low) * 0.0000005
  {
    var rest := tokens[..|tokens| - 1];
    AverageWithin(rest, colours, low, high);
    AverageStep(tokens, colours);
    LastMix(tokens, percent, colours);
    MixError(Eval(Chain(rest, percent), colours), Average(rest, colours), colours(tokens[|rest|]),
             percent(|tokens|) / 100.0, 1.0 / |tokens| as real, error, high - low, 0.0000005);
  }

  /** With the weights written, the chain is within half a millionth of the spread per mix. */
  lemma {:induction false} WrittenChainIsClose(tokens: seq<string>, colours: string -> real, low: real, high: real)
    requires tokens != [] && ColoursWithin(tokens, colours, low, high)
    ensures Distance(Eval(Chain(tokens, WrittenPercent), colours), Average(tokens, colours))
            <= Slack(|tokens| - 1, high - low)
  {
    if |tokens| > 1 {
      var last := |tokens| - 1;
      WrittenChainIsClose(tokens[..last], colours, low, high);
      PercentNear(|tokens|);
      OneMoreMix(tokens, WrittenPercent, colours, low, high, Slack(last - 1, high - low));
      SlackOfOneMore(last - 1, high - low);
    } else {
      assert Total(tokens, colours) == 0.0 + colours(tokens[0]);
    }
  }

  lemma PercentNear(n: nat)
    requires n > 0
    ensures Distance(WrittenPercent(n) / 100.0, 1.0 / n as real) <= 0.0000005
    ensures 0.0 <= WrittenPercent(n) / 100.0 <= 1.0
  {
    var exact := ExactPercent(n);
    assert exact * n as real == 100.0;
    assert 0.0 <= exact <= 100.0;
    FourPlacesNear(exact);
    assert exact / 100.0 == 1.0 / n as real;
  }

  /** The order of the members moves the written colour by at most a millionth of the spread per
      mix. */
  lemma WrittenChainInAnyOrder(tokens: seq<string>, other: seq<string>, colours: string -> real,
                               low: real, high: real)
    requires tokens != [] && multiset(tokens) == multiset(other)
    requires ColoursWithin(tokens, colours, low, high)
    ensures other != []
    ensures Distance(Eval(Chain(tokens, WrittenPercent), colours), Eval(Chain(other, WrittenPercent), colours))
            <= 2.0 * Slack(|tokens| - 1, high - low)
  {
    assert |multiset(tokens)| == |tokens| && |multiset(other)| == |other|;
    forall i | 0 <= i < |other| ensures low <= colours(other[i]) <= high {
      assert other[i] in multiset(other);
      assert other[i] in multiset(tokens);
    }
    TotalInAnyOrder(tokens, other, colours);
    WrittenChainIsClose(tokens, colours, low, high);
    WrittenChainIsClose(other, colours, low, high);
  }

  // ---- When the order shows ----------------------------------------------------------------------

  /** What the chain with the weights written evaluates to. */
  function Written(tokens: seq<string>, colours: string -> real): real
    requires tokens != []
  {
    Eval(Chain(tokens, WrittenPercent), colours)
  }

  ghost predicate OneColour(tokens: seq<string>, colours: string -> real) {
    forall i, j :: 0 <= i < |tokens| && 0 <= j < |tokens| ==> colours(tokens[i]) == colours(tokens[j])
  }

  ghost predicate Reorders(other: seq<string>, tokens: seq<string>) {
    multiset(other) == multiset(tokens)
  }

  /** No order of the members shows in the written colour. */
  ghost predicate SameInAnyOrder(tokens: seq<string>, colours: string -> real)
    requires tokens != []
  {
    forall other :: Reorders(other, tokens) && other != [] ==> Written(other, colours) == Written(tokens, colours)
  }

  /** The written colour is the average, whatever the order of the members. */
  ghost predicate AverageInAnyOrder(tokens: seq<string>, colours: string -> real)
    requires tokens != []
  {
    forall other :: Reorders(other, tokens) && other != [] ==> Written(other, colours) == Average(tokens, colours)
  }

  lemma HalfAndThird()
    ensures WrittenPercent(2) == 50.0 && WrittenPercent(3) == 33.3333
  {
    assert (50.0 * 10000.0).Floor == 500000;
    assert (100.0 / 3.0 * 10000.0).Floor == 333333;
  }

  lemma Pair(a: string, b: string, colours: string -> real)
    ensures Written([a, b], colours) == (colours(a) + colours(b)) / 2.0
  {
    HalfAndThird();
    LastMix([a, b], WrittenPercent, colours);
    assert [a, b][..1] == [a];
  }

  lemma Three(a: string, b: string, c: string, colours: string -> real)
    ensures Written([a, b, c], colours) ==
            Blend((colours(a) + colours(b)) / 2.0, colours(c), WrittenPercent(3) / 100.0)
  {
    LastMix([a, b, c], WrittenPercent, colours);
    assert [a, b, c][..2] == [a, b];
    Pair(a, b, colours);
  }

  lemma OneColourIsKept(tokens: seq<string>, colours: string -> real)
    requires tokens != [] && OneColour(tokens, colours)
    ensures Written(tokens, colours) == colours(tokens[0])
  {
    if |tokens| > 1 {
      OneColourIsKept(tokens[..|tokens| - 1], colours);
      LastMix(tokens, WrittenPercent, colours);
    }
  }

  /** Up to two members, or members of one colour: the written chain is the average. */
  lemma WrittenIsAverage(tokens: seq<string>, colours: string -> real)
    requires tokens != [] && (|tokens| < 3 || OneColour(tokens, colours))
    ensures Written(tokens, colours) == Average(tokens, colours)
  {
    if |tokens| == 2 && !OneColour(tokens, colours) {
      assert tokens == [tokens[0], tokens[1]];
      Pair(tokens[0], tokens[1], colours);
      assert tokens[..1][..0] == [];
      assert Total(tokens[..1], colours) == 0.0 + colours(tokens[0]);
    } else {
      OneColourIsKept(tokens, colours);
      AverageWithin(tokens, colours, colours(tokens[0]), colours(tokens[0]));
    }
  }

  lemma ReorderedAverage(tokens: seq<string>, other: seq<string>, colours: string -> real)
    requires tokens != [] && Reorders(other, tokens)
    ensures |other| == |tokens| && Average(other, colours) == Average(tokens, colours)
    ensures OneColour(tokens, colours) ==> OneColour(other, colours)
  {
    assert |multiset(tokens)| == |tokens| && |multiset(other)| == |other|;
    TotalInAnyOrder(tokens, other, colours);
    if OneColour(tokens, colours) {
      forall i | 0 <= i < |other| ensures colours(other[i]) == colours(tokens[0]) {
        assert other[i] in multiset(other);
        assert other[i] in multiset(tokens);
      }
    }
  }

  lemma ScaledApart(x: real, y: real, scale: real)
    requires x < y && scale > 0.0
    ensures x * scale < y * scale
  {
  }

  lemma BlendApart(x: real, y: real, colour: real, share: real)
    requires x != y && share < 1.0
    ensures Blend(x, colour, share) != Blend(y, colour, share)
  {
    if x < y {
      ScaledApart(x, y, 1.0 - share);
    } else {
      ScaledApart(y, x, 1.0 - share);
    }
  }

  lemma ShareBelowOne(n: nat)
    requires n > 1
    ensures WrittenPercent(n) / 100.0 < 1.0
  {
    PercentNear(n);
    assert 1.0 / n as real <= 0.5;
  }

  lemma ThreeApart(a: string, b: string, c: string, colours: string -> real)
    requires colours(b) != colours(c)
    ensures Written([a, b, c], colours) != Written([a, c, b], colours)
  {
    HalfAndThird();
    Three(a, b, c, colours);
    Three(a, c, b, colours);
  }

  /** So the written weights alone are not an average. */
  lemma WrittenOrderShows(colours: string -> real)
    requires colours("--m1") == 0.0 && colours("--m2") == 0.0 && colours("--m3") == 1.0
    ensures Eval(Chain(["--m1", "--m2", "--m3"], WrittenPercent), colours)
         != Eval(Chain(["--m1", "--m3", "--m2"], WrittenPercent), colours)
  {
    ThreeApart("--m1", "--m2", "--m3", colours);
  }

  /** Swapping the second and third of three or more members shows whenever their colours differ. */
  lemma {:induction false} SwapShows(a: string, b: string, c: string, rest: seq<string>, colours: string -> real)
    requires colours(b) != colours(c)
    ensures Written([a, b, c] + rest, colours) != Written([a, c, b] + rest, colours)
  {
    var one, two := [a, b, c] + rest, [a, c, b] + rest;
    if rest == [] {
      assert one == [a, b, c] && two == [a, c, b];
      ThreeApart(a, b, c, colours);
    } else {
      var n := |rest| - 1;
      SwapShows(a, b, c, rest[..n], colours);
      assert one[..|one| - 1] == [a, b, c] + rest[..n] && two[..|two| - 1] == [a, c, b] + rest[..n];
      LastMix(one, WrittenPercent, colours);
      LastMix(two, WrittenPercent, colours);
      ShareBelowOne(|one|);
      BlendApart(Written([a, b, c] + rest[..n], colours), Written([a, c, b] + rest[..n], colours),
                 colours(rest[n]), WrittenPercent(|one|) / 100.0);
    }
  }

  lemma Together(one: seq<string>, two: seq<string>)
    ensures multiset(one + two) == multiset(one) + multiset(two)
  {
  }

  lemma Regrouped(a: multiset<string>, b: multiset<string>, c: multiset<string>, rest: multiset<string>)
    ensures a + (b + (c + rest)) == b + (c + (a + rest))
  {
  }

  lemma OneByOne(a: string, b: string, c: string, rest: seq<string>)
    ensures [a, b, c] + rest == [a] + ([b] + ([c] + rest))
  {
  }

  /** The second and third of a list, then the others. */
  lemma InFront(a: string, b: string, c: string, rest: seq<string>)
    ensures multiset([a, b, c] + rest) == multiset([b]) + (multiset([c]) + multiset([a] + rest))
  {
    OneByOne(a, b, c, rest);
    Together([a], [b] + ([c] + rest));
    Together([b], [c] + rest);
    Together([c], rest);
    Together([a], rest);
    Regrouped(multiset([a]), multiset([b]), multiset([c]), multiset(rest));
  }

  lemma TakenOut(b: multiset<string>, c: multiset<string>,
                 before: multiset<string>, between: multiset<string>, after: multiset<string>)
    ensures before + (b + (between + (c + after))) == b + (c + (before + (between + after)))
  {
  }

  /** Three members in front of the rest are the members between which they stood. */
  lemma TwoInFront(a: string, b: string, c: string, rest: seq<string>,
                   before: seq<string>, between: seq<string>, after: seq<string>)
    requires [a] + rest == before + (between + after)
    ensures multiset([a, b, c] + rest) == multiset(before + ([b] + (between + ([c] + after))))
  {
    InFront(a, b, c, rest);
    Together(before, between + after);
    Together(between, after);
    Together(before, [b] + (between + ([c] + after)));
    Together([b], between + ([c] + after));
    Together(between, [c] + after);
    Together([c], after);
    TakenOut(multiset([b]), multiset([c]), multiset(before), multiset(between), multiset(after));
  }

  lemma Swapped(b: multiset<string>, c: multiset<string>, rest: multiset<string>)
    ensures b + (c + rest) == c + (b + rest)
  {
  }

  /** Three or more members of more than one colour can be lined up for such a swap. */
  lemma LineUp(tokens: seq<string>, colours: string -> real)
    returns (a: string, b: string, c: string, rest: seq<string>)
    requires |tokens| >= 3 && !OneColour(tokens, colours)
    ensures colours(b) != colours(c)
    ensures Reorders([a, b, c] + rest, tokens) && Reorders([a, c, b] + rest, tokens)
  {
    var i, j :| 0 <= i < j < |tokens| && colours(tokens[i]) != colours(tokens[j]);
    var before, between, after := tokens[..i], tokens[i + 1..j], tokens[j + 1..];
    var others := before + (between + after);
    a, b, c, rest := others[0], tokens[i], tokens[j], others[1..];
    assert [a] + rest == others;
    assert tokens == before + ([b] + (between + ([c] + after)));
    TwoInFront(a, b, c, rest, before, between, after);
    InFront(a, b, c, rest);
    InFront(a, c, b, rest);
    Swapped(multiset([b]), multiset([c]), multiset([a] + rest));
  }

  lemma OrderCanShow(tokens: seq<string>, colours: string -> real)
    requires |tokens| >= 3 && !OneColour(tokens, colours)
    ensures !SameInAnyOrder(tokens, colours) && !AverageInAnyOrder(tokens, colours)
  {
    var a, b, c, rest := LineUp(tokens, colours);
    SwapShows(a, b, c, rest, colours);
    assert [a, b, c] + rest != [] && [a, c, b] + rest != [];
  }

  /** The order of the members never shows in the written colour exactly when there are at most
      two of them or they have one colour. */
  lemma OrderShowsExactly(tokens: seq<string>, colours: string -> real)
    requires tokens != []
    ensures SameInAnyOrder(tokens, colours) <==> |tokens| < 3 || OneColour(tokens, colours)
  {
    if |tokens| < 3 || OneColour(tokens, colours) {
      WrittenIsAverage(tokens, colours);
      forall other | Reorders(other, tokens) && other != []
        ensures Written(other, colours) == Written(tokens, colours)
      {
        ReorderedAverage(tokens, other, colours);
        WrittenIsAverage(other, colours);
      }
    } else {
      OrderCanShow(tokens, colours);
    }
  }

  /** And exactly then it is their average in every order. */
  lemma AverageExactly(tokens: seq<string>, colours: string -> real)
    requires tokens != []
    ensures AverageInAnyOrder(tokens, colours) <==> |tokens| < 3 || OneColour(tokens, colours)
  {
    if |tokens| < 3 || OneColour(tokens, colours) {
      forall other | Reorders(other, tokens) && other != []
        ensures Written(other, colours) == Average(tokens, colours)
      {
        ReorderedAverage(tokens, other, colours);
        WrittenIsAverage(other, colours);
      }
    } else {
      OrderCanShow(tokens, colours);
    }
  }
}
