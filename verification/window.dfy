/** The dates a run considers: `start_date + timedelta(days=i)` for
    `i in range(days)`, where `start_date = today - timedelta(days=days)`. */
module Window {
  import opened Options
  import opened Dates

  /** The `n` calendar days before `today`, oldest first. Built backward
      from `today`; the contract states the forward reading the loop uses. */
  function Candidates(today: Date, n: nat): (w: seq<Date>)
    requires Valid(today) && Back(today, n).Some?
    ensures |w| == n
    ensures forall i :: 0 <= i < n ==> Valid(w[i]) && w[i] != MaxDate
    ensures n > 0 ==> w[0] == Back(today, n).value && NextDay(w[n - 1]) == today
    ensures forall i :: 0 <= i < n - 1 ==> NextDay(w[i]) == w[i + 1]
    decreases n
  {
    if n == 0 then []
    else Candidates(PrevDay(today), n - 1) + [PrevDay(today)]
  }

  /** Element `i` of the window is exactly `i` days after the start date. */
  lemma {:induction false} CandidateIsStartPlus(today: Date, n: nat, i: nat)
    requires Valid(today) && Back(today, n).Some? && i < n
    ensures Forward(Back(today, n).value, i) == Some(Candidates(today, n)[i])
    decreases i
  {
    var w := Candidates(today, n);
    var start := Back(today, n).value;
    if i > 0 {
      CandidateIsStartPlus(today, n, i - 1);
      ForwardStep(start, i - 1);
    }
  }

  /** The window is strictly ascending and every candidate precedes today:
      today itself is never a candidate and no date appears twice. */
  lemma {:induction false} CandidatesAscending(today: Date, n: nat, i: nat, j: nat)
    requires Valid(today) && Back(today, n).Some?
    requires i < j <= n
    ensures j < n ==> Before(Candidates(today, n)[i], Candidates(today, n)[j])
    ensures j == n ==> Before(Candidates(today, n)[i], today)
    decreases j - i
  {
    var w := Candidates(today, n);
    if j == i + 1 {
      if j < n {
        assert NextDay(w[i]) == w[j];
      } else {
        assert NextDay(w[i]) == today;
      }
    } else {
      CandidatesAscending(today, n, i + 1, j);
      assert NextDay(w[i]) == w[i + 1];
      if j < n {
        BeforeTransitive(w[i], w[i + 1], w[j]);
      } else {
        BeforeTransitive(w[i], w[i + 1], today);
      }
    }
  }

  predicate Distinct<T(==)>(s: seq<T>) {
    forall i, j :: 0 <= i < j < |s| ==> s[i] != s[j]
  }

  lemma CandidatesDistinct(today: Date, n: nat)
    requires Valid(today) && Back(today, n).Some?
    ensures Distinct(Candidates(today, n))
    ensures forall i :: 0 <= i < n ==> Candidates(today, n)[i] != today
  {
    var w := Candidates(today, n);
    forall i, j | 0 <= i < j < n
      ensures w[i] != w[j]
    {
      CandidatesAscending(today, n, i, j);
    }
    forall i | 0 <= i < n
      ensures w[i] != today
    {
      CandidatesAscending(today, n, i, n);
    }
  }
}
