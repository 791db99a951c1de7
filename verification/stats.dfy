/** The four-field counter set kept per session and once globally. */
module Stats {

  datatype Counters = Counters(
    inRpcs: nat,
    inBadRpcs: nat,
    outRpcErrors: nat,
    outNotifications: nat)

  /** Names one of the four counters. */
  datatype Field = InRpcs | InBadRpcs | OutRpcErrors | OutNotifications

  /** The counter set of a freshly added session (the memset to 0). */
  const Zero: Counters := Counters(0, 0, 0, 0)

  function Get(c: Counters, f: Field): nat
  {
    match f
    case InRpcs => c.inRpcs
    case InBadRpcs => c.inBadRpcs
    case OutRpcErrors => c.outRpcErrors
    case OutNotifications => c.outNotifications
  }

  /** The `++` of one named counter: that field grows by one, the others stay. */
  function Bump(c: Counters, f: Field): (r: Counters)
    ensures Get(r, f) == Get(c, f) + 1
    ensures forall g :: g != f ==> Get(r, g) == Get(c, g)
  {
    match f
    case InRpcs => c.(inRpcs := c.inRpcs + 1)
    case InBadRpcs => c.(inBadRpcs := c.inBadRpcs + 1)
    case OutRpcErrors => c.(outRpcErrors := c.outRpcErrors + 1)
    case OutNotifications => c.(outNotifications := c.outNotifications + 1)
  }

  /** Total of one counter over a sequence of counter sets. */
  function Sum(cs: seq<Counters>, f: Field): nat
  {
    if |cs| == 0 then 0 else Get(cs[0], f) + Sum(cs[1..], f)
  }

  lemma {:induction false} SumConcat(a: seq<Counters>, b: seq<Counters>, f: Field)
    ensures Sum(a + b, f) == Sum(a, f) + Sum(b, f)
  {
    if |a| == 0 {
      assert a + b == b;
    } else {
      assert (a + b)[1..] == a[1..] + b;
      SumConcat(a[1..], b, f);
    }
  }

  lemma SumAppend(cs: seq<Counters>, c: Counters, f: Field)
    ensures Sum(cs + [c], f) == Sum(cs, f) + Get(c, f)
  {
    SumConcat(cs, [c], f);
    assert [c][1..] == [];
  }

  /** Dropping the entry at `i` takes exactly its share out of the total. */
  lemma SumRemoveAt(cs: seq<Counters>, i: nat, f: Field)
    requires i < |cs|
    ensures Sum(cs[..i] + cs[i + 1..], f) == Sum(cs, f) - Get(cs[i], f)
  {
    var tail := [cs[i]] + cs[i + 1..];
    assert cs == cs[..i] + tail;
    assert tail[1..] == cs[i + 1..];
    SumConcat(cs[..i], tail, f);
    SumConcat(cs[..i], cs[i + 1..], f);
  }

  /** Replacing the entry at `i` changes the total by the difference. */
  lemma SumUpdate(cs: seq<Counters>, i: nat, c: Counters, f: Field)
    requires i < |cs|
    ensures Sum(cs[i := c], f) == Sum(cs, f) - Get(cs[i], f) + Get(c, f)
  {
    var tail := [c] + cs[i + 1..];
    assert cs[i := c] == cs[..i] + tail;
    assert tail[1..] == cs[i + 1..];
    SumConcat(cs[..i], tail, f);
    SumRemoveAt(cs, i, f);
    SumConcat(cs[..i], cs[i + 1..], f);
  }
}
