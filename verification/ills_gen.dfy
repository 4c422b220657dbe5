/** The offline ILL generator (`ills_<t>.txt`): every satellite is bound to the
    nearest GEO relay strictly closer than the maximum ILL length, the lowest
    index winning a tie; a satellite with no such relay stops the generator.
    A line `sat geo` is written only when there is no previous assignment or
    it changed. Distances are inputs in whole metres.
 */
module IllsGen {
  import opened Outcomes

  /** Relay `g` is the one to choose: closer than the limit, no farther than
      any relay, and strictly closer than every relay before it. */
  predicate IsChoice(row: seq<nat>, maxLen: nat, g: int) {
    0 <= g < |row| && row[g] < maxLen
    && (forall h :: 0 <= h < |row| ==> row[g] <= row[h])
    && (forall h :: 0 <= h < g ==> row[g] < row[h])
  }

  predicate NoneInRange(row: seq<nat>, maxLen: nat) {
    forall h :: 0 <= h < |row| ==> row[h] >= maxLen
  }

  /** The inner loop of `calculate_ills`; -1 when no relay qualifies. */
  method NearestGeo(row: seq<nat>, maxLen: nat) returns (target: int)
    ensures target == -1 <==> NoneInRange(row, maxLen)
    ensures target != -1 ==> IsChoice(row, maxLen, target)
  {
    var least := maxLen;
    target := -1;
    var g := 0;
    while g < |row|
      invariant 0 <= g <= |row|
      invariant -1 <= target < g
      invariant target == -1 ==> least == maxLen && forall h :: 0 <= h < g ==> row[h] >= maxLen
      invariant target != -1 ==> least == row[target] && row[target] < maxLen
                                 && (forall h :: 0 <= h < g ==> row[target] <= row[h])
                                 && (forall h :: 0 <= h < target ==> row[target] < row[h])
    {
      if row[g] < least {
        least := row[g];
        target := g;
      }
      g := g + 1;
    }
  }

  /** The choice is determined by the distances alone. */
  lemma ChoiceUnique(row: seq<nat>, maxLen: nat, g1: int, g2: int)
    requires IsChoice(row, maxLen, g1) && IsChoice(row, maxLen, g2)
    ensures g1 == g2
  {
  }

  function Sum(s: seq<nat>): nat {
    if |s| == 0 then 0 else s[0] + Sum(s[1..])
  }

  lemma {:induction false} SumBump(s: seq<nat>, i: nat)
    requires i < |s|
    ensures Sum(s[i := s[i] + 1]) == Sum(s) + 1
  {
    if i > 0 {
      SumBump(s[1..], i - 1);
      assert s[i := s[i] + 1][1..] == s[1..][i - 1 := s[i] + 1];
    }
  }

  lemma {:induction false} SumZeros(n: nat)
    ensures Sum(seq(n, _ => 0)) == 0
  {
    if n > 0 {
      assert seq(n, _ => 0)[1..] == seq(n - 1, _ => 0);
      SumZeros(n - 1);
    }
  }

  /** Python's `not prev_ills`: no previous step, or an empty one. */
  predicate NoPrevious(prev: Option<map<int, int>>) {
    prev.None? || |prev.value| == 0
  }

  predicate Changed(prev: Option<map<int, int>>, sat: int, geo: int)
    requires NoPrevious(prev) || sat in prev.value
  {
    NoPrevious(prev) || prev.value[sat] != geo
  }

  datatype IllsResult = IllsResult(lines: seq<(int, int)>, ills: map<int, int>, perGeo: seq<nat>)

  /** `calculate_ills` over the distance matrix `dist[sat][geo]`. */
  method CalculateIlls(dist: seq<seq<nat>>, numGeo: nat, maxLen: nat, prev: Option<map<int, int>>)
    returns (r: Outcome<IllsResult>)
    requires forall s :: 0 <= s < |dist| ==> |dist[s]| == numGeo
    ensures r.Ok? <==> forall s :: 0 <= s < |dist| ==>
                         !NoneInRange(dist[s], maxLen) && (NoPrevious(prev) || s in prev.value)
    ensures r.Ok? ==> forall s :: 0 <= s < |dist| ==>
                        s in r.value.ills && IsChoice(dist[s], maxLen, r.value.ills[s]) && r.value.ills[s] < numGeo
    ensures r.Ok? ==> forall s :: s in r.value.ills ==> 0 <= s < |dist|
    ensures r.Ok? ==> forall s :: 0 <= s < |dist| && Changed(prev, s, r.value.ills[s]) ==> (s, r.value.ills[s]) in r.value.lines
    ensures r.Ok? ==> forall l :: l in r.value.lines ==>
                        0 <= l.0 < |dist| && l.1 == r.value.ills[l.0] && Changed(prev, l.0, l.1)
    ensures r.Ok? ==> |r.value.perGeo| == numGeo && Sum(r.value.perGeo) == |dist|
  {
    var lines: seq<(int, int)> := [];
    var ills: map<int, int> := map[];
    var perGeo: seq<nat> := seq(numGeo, _ => 0);
    SumZeros(numGeo);
    var sat := 0;
    while sat < |dist|
      invariant 0 <= sat <= |dist|
      invariant forall s :: 0 <= s < sat ==> !NoneInRange(dist[s], maxLen) && (NoPrevious(prev) || s in prev.value)
      invariant forall s :: 0 <= s < sat ==> s in ills && IsChoice(dist[s], maxLen, ills[s])
      invariant forall s :: s in ills ==> 0 <= s < sat
      invariant forall s :: 0 <= s < sat && Changed(prev, s, ills[s]) ==> (s, ills[s]) in lines
      invariant forall l :: l in lines ==> 0 <= l.0 < sat && l.0 in ills && l.1 == ills[l.0] && Changed(prev, l.0, l.1)
      invariant |perGeo| == numGeo && Sum(perGeo) == sat
    {
      var target := NearestGeo(dist[sat], maxLen);
      if target == -1 {
        return Abort("No suitable ILL be found, something wrong");
      }
      SumBump(perGeo, target);
      perGeo := perGeo[target := perGeo[target] + 1];
      if !(NoPrevious(prev) || sat in prev.value) {
        return Abort("KeyError");
      }
      if Changed(prev, sat, target) {
        lines := lines + [(sat, target)];
      }
      ills := ills[sat := target];
      sat := sat + 1;
    }
    return Ok(IllsResult(lines, ills, perGeo));
  }
}
