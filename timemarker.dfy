/**
 * The elapsed-time marker in a line of the transcoder's diagnostic output: the leftmost match of
 * the regular expression `time=(\d+):(\d+):(\d+).(\d+)` that `ConverterThread.run` searches for.
 *
 * The dot is unescaped, so any character other than a newline separates the seconds from the
 * fraction, and the engine's backtracking decides how the seconds digits are split. `MatchAt`
 * states when the pattern matches at a position with given group lengths; `MatchHere` and
 * `Search` compute the match the engine reports, and `SearchIsLeftmostGreedy` proves that it is
 * the leftmost one and, at that position, the one greedy quantifiers prefer.
 */
module TimeMarker {
  import opened Wrappers
  import opened Decimal

  /** Lengths of the four digit groups of a match. */
  datatype Span = Span(hours: nat, minutes: nat, seconds: nat, fraction: nat)

  /** A match: where it starts and the lengths of its groups. */
  datatype Found = Found(start: nat, span: Span)

  /** The marker's value; the fraction group is discarded. */
  datatype Time = Time(hours: nat, minutes: nat, seconds: nat)

  function MinutesAt(i: nat, sp: Span): nat { i + 5 + sp.hours + 1 }
  function SecondsAt(i: nat, sp: Span): nat { MinutesAt(i, sp) + sp.minutes + 1 }
  function FractionAt(i: nat, sp: Span): nat { SecondsAt(i, sp) + sp.seconds + 1 }
  function EndOf(i: nat, sp: Span): nat { FractionAt(i, sp) + sp.fraction }

  /** Every character of `line[k..k+n]` is a decimal digit. */
  predicate DigitsIn(line: string, k: nat, n: nat) {
    k + n <= |line| && forall j :: k <= j < k + n ==> IsDigit(line[j])
  }

  /** `line[k..k+n]` is a non-empty run of decimal digits: one `(\d+)` group. */
  predicate DigitsAt(line: string, k: nat, n: nat) {
    n >= 1 && DigitsIn(line, k, n)
  }

  /** The literal `time=` occurs at position `i`. */
  predicate KeyAt(line: string, i: nat) {
    i + 5 <= |line| &&
    line[i] == 't' && line[i + 1] == 'i' && line[i + 2] == 'm' && line[i + 3] == 'e' && line[i + 4] == '='
  }

  /** A `(\d+):` group of length `n` at `k`. */
  predicate ColonGroupAt(line: string, k: nat, n: nat) {
    DigitsAt(line, k, n) && k + n < |line| && line[k + n] == ':'
  }

  /** `(\d+).(\d+)` at `k` with groups of lengths `sl` and `fl`; the dot is any non-newline character. */
  predicate SecondsFractionAt(line: string, k: nat, sl: nat, fl: nat) {
    DigitsAt(line, k, sl) && k + sl < |line| && line[k + sl] != '\n' && DigitsAt(line, k + sl + 1, fl)
  }

  /** The pattern matches `line` at position `i` with group lengths `sp`. */
  predicate MatchAt(line: string, i: nat, sp: Span) {
    KeyAt(line, i) &&
    ColonGroupAt(line, i + 5, sp.hours) &&
    ColonGroupAt(line, MinutesAt(i, sp), sp.minutes) &&
    SecondsFractionAt(line, SecondsAt(i, sp), sp.seconds, sp.fraction)
  }

  /** Greedy preference between two matches at one position: the hours and minutes groups are
      forced, a longer seconds group is tried first, then a longer fraction group. */
  predicate Preferred(sp: Span, best: Span) {
    sp.hours == best.hours && sp.minutes == best.minutes &&
    (sp.seconds < best.seconds || (sp.seconds == best.seconds && sp.fraction <= best.fraction))
  }

  /** Length of the longest run of digits starting at `k`. */
  function DigitRun(line: string, k: nat): nat
    requires k <= |line|
    decreases |line| - k
  {
    if k < |line| && IsDigit(line[k]) then 1 + DigitRun(line, k + 1) else 0
  }

  /** The run is all digits and is followed by a non-digit or the end of the line. */
  lemma {:induction false} DigitRunIsRun(line: string, k: nat)
    requires k <= |line|
    ensures DigitsIn(line, k, DigitRun(line, k))
    ensures k + DigitRun(line, k) == |line| || !IsDigit(line[k + DigitRun(line, k)])
    decreases |line| - k
  {
    if k < |line| && IsDigit(line[k]) {
      DigitRunIsRun(line, k + 1);
    }
  }

  /** Any run of digits starting at `k` is at most the longest one, and equals it when a
      non-digit follows. */
  lemma {:induction false} RunBounds(line: string, k: nat, n: nat)
    requires DigitsIn(line, k, n)
    ensures n <= DigitRun(line, k)
    ensures k + n < |line| && !IsDigit(line[k + n]) ==> n == DigitRun(line, k)
    decreases n
  {
    if n > 0 {
      RunBounds(line, k + 1, n - 1);
    }
  }

  /** An hours or minutes group at `k`: the longest run of digits, which must be followed by a colon. */
  function ColonGroup(line: string, k: nat): Option<nat>
    requires k <= |line|
  {
    var n := DigitRun(line, k);
    if n >= 1 && k + n < |line| && line[k + n] == ':' then Some(n) else None
  }

  /** What `ColonGroup` reports is such a group. */
  lemma ColonGroupSound(line: string, k: nat)
    requires k <= |line|
    ensures ColonGroup(line, k).Some? ==> ColonGroupAt(line, k, ColonGroup(line, k).value)
  {
    DigitRunIsRun(line, k);
  }

  /** A group followed by a colon can only be the longest run of digits. */
  lemma ColonGroupForced(line: string, k: nat, n: nat)
    requires ColonGroupAt(line, k, n)
    ensures ColonGroup(line, k) == Some(n)
  {
    RunBounds(line, k, n);
  }

  /** Lengths of the seconds and fraction groups at `k`, as the engine splits them: the longest
      run of seconds digits if a non-newline character and a digit follow it, otherwise two digits
      shorter, so that its last two digits serve as the separator and the fraction. */
  function SecondsGroups(line: string, k: nat): Option<(nat, nat)>
    requires k <= |line|
  {
    var s := DigitRun(line, k);
    var q := k + s;
    if s >= 1 && q + 1 < |line| && line[q] != '\n' && IsDigit(line[q + 1]) then Some((s, DigitRun(line, q + 1)))
    else if s >= 3 then Some((s - 2, 1))
    else None
  }

  /** What `SecondsGroups` reports is such a pair of groups. */
  lemma SecondsGroupsSound(line: string, k: nat)
    requires k <= |line|
    ensures var r := SecondsGroups(line, k);
      r.Some? ==> SecondsFractionAt(line, k, r.value.0, r.value.1)
  {
    var s := DigitRun(line, k);
    DigitRunIsRun(line, k);
    if s >= 1 && k + s + 1 < |line| && line[k + s] != '\n' && IsDigit(line[k + s + 1]) {
      DigitRunIsRun(line, k + s + 1);
    }
  }

  /** Any way of splitting the digits at `k` into seconds and fraction is one the engine could
      report, and the one it reports has the longest seconds group, then the longest fraction. */
  lemma SecondsGroupsGreedy(line: string, k: nat, sl: nat, fl: nat)
    requires SecondsFractionAt(line, k, sl, fl)
    ensures var r := SecondsGroups(line, k);
      r.Some? && (sl < r.value.0 || (sl == r.value.0 && fl <= r.value.1))
  {
    RunBounds(line, k, sl);
    DigitRunIsRun(line, k);
    var s := DigitRun(line, k);
    assert IsDigit(line[k + sl + 1]);
    if sl == s {
      RunBounds(line, k + sl + 1, fl);
    } else {
      assert sl <= s - 2;
    }
  }

  /** The match the engine reports at position `i`, trying the longest groups first. */
  function MatchHere(line: string, i: nat): Option<Span> {
    if !KeyAt(line, i) then None
    else
      match ColonGroup(line, i + 5)
      case None => None
      case Some(h) =>
        match ColonGroup(line, i + 5 + h + 1)
        case None => None
        case Some(m) =>
          match SecondsGroups(line, i + 5 + h + 1 + m + 1)
          case None => None
          case Some((s, f)) => Some(Span(h, m, s, f))
  }

  /** What the engine reports at `i` is a match. */
  lemma MatchHereSound(line: string, i: nat)
    ensures MatchHere(line, i).Some? ==> MatchAt(line, i, MatchHere(line, i).value)
  {
    if KeyAt(line, i) {
      ColonGroupSound(line, i + 5);
      var h := ColonGroup(line, i + 5);
      if h.Some? {
        ColonGroupSound(line, i + 5 + h.value + 1);
        var m := ColonGroup(line, i + 5 + h.value + 1);
        if m.Some? {
          SecondsGroupsSound(line, i + 5 + h.value + 1 + m.value + 1);
        }
      }
    }
  }

  /** Every match at `i` is one the engine could report there, and the reported one is preferred. */
  lemma MatchHereComplete(line: string, i: nat, sp: Span)
    requires MatchAt(line, i, sp)
    ensures MatchHere(line, i).Some? && Preferred(sp, MatchHere(line, i).value)
  {
    ColonGroupForced(line, i + 5, sp.hours);
    ColonGroupForced(line, MinutesAt(i, sp), sp.minutes);
    SecondsGroupsGreedy(line, SecondsAt(i, sp), sp.seconds, sp.fraction);
    var r := SecondsGroups(line, SecondsAt(i, sp));
    var best := Span(sp.hours, sp.minutes, r.value.0, r.value.1);
    assert MinutesAt(i, best) == MinutesAt(i, sp) && SecondsAt(i, best) == SecondsAt(i, sp);
    MatchHereOf(line, i, best);
  }

  /** `MatchHere` once its three stages have succeeded. */
  lemma MatchHereOf(line: string, i: nat, sp: Span)
    requires KeyAt(line, i)
    requires ColonGroup(line, i + 5) == Some(sp.hours)
    requires MinutesAt(i, sp) <= |line| && ColonGroup(line, MinutesAt(i, sp)) == Some(sp.minutes)
    requires SecondsAt(i, sp) <= |line| && SecondsGroups(line, SecondsAt(i, sp)) == Some((sp.seconds, sp.fraction))
    ensures MatchHere(line, i) == Some(sp)
  {
  }

  /** The first position at or after `from` where the pattern matches, with the reported groups. */
  function Search(line: string, from: nat): Option<Found>
    requires from <= |line|
    decreases |line| - from
  {
    var here := MatchHere(line, from);
    if here.Some? then Some(Found(from, here.value))
    else if from == |line| then None
    else Search(line, from + 1)
  }

  /** `Search` reports the first position from `from` on where `MatchHere` reports something. */
  lemma {:induction false} SearchIsFirst(line: string, from: nat)
    requires from <= |line|
    ensures var r := Search(line, from);
      (r.Some? ==> from <= r.value.start && MatchHere(line, r.value.start) == Some(r.value.span)) &&
      (r.Some? ==> forall j :: from <= j < r.value.start ==> MatchHere(line, j).None?) &&
      (r.None? ==> forall j :: from <= j <= |line| ==> MatchHere(line, j).None?)
    decreases |line| - from
  {
    if MatchHere(line, from).None? && from < |line| {
      SearchIsFirst(line, from + 1);
    }
  }

  /** `re.search`: the reported match is a match, no match starts earlier, and no match at the
      same position is preferred to it; when nothing is reported, the pattern matches nowhere. */
  lemma SearchIsLeftmostGreedy(line: string)
    ensures var r := Search(line, 0);
      (r.Some? ==>
        MatchAt(line, r.value.start, r.value.span) &&
        (forall j: nat, sp :: j < r.value.start ==> !MatchAt(line, j, sp)) &&
        (forall sp :: MatchAt(line, r.value.start, sp) ==> Preferred(sp, r.value.span))) &&
      (r.None? ==> forall j: nat, sp :: !MatchAt(line, j, sp))
  {
    var r := Search(line, 0);
    SearchIsFirst(line, 0);
    if r.Some? {
      MatchHereSound(line, r.value.start);
    }
    forall j: nat, sp | MatchAt(line, j, sp)
      ensures MatchHere(line, j).Some? && Preferred(sp, MatchHere(line, j).value)
    {
      MatchHereComplete(line, j, sp);
    }
  }

  /** The value of the first marker in `line`, if there is one. */
  function Marker(line: string): Option<Time> {
    SearchIsLeftmostGreedy(line);
    var r := Search(line, 0);
    if r.Some? then Some(GroupValues(line, r.value)) else None
  }

  /** The values of the hours, minutes and seconds groups of a match. */
  function GroupValues(line: string, f: Found): Time
    requires SecondsAt(f.start, f.span) + f.span.seconds <= |line|
  {
    var i, sp := f.start, f.span;
    Time(Value(line[i + 5..i + 5 + sp.hours]),
         Value(line[MinutesAt(i, sp)..MinutesAt(i, sp) + sp.minutes]),
         Value(line[SecondsAt(i, sp)..SecondsAt(i, sp) + sp.seconds]))
  }

  /** A line has a marker exactly when the pattern matches somewhere in it. */
  lemma MarkerFound(line: string)
    ensures Marker(line).Some? <==> exists j: nat, sp :: MatchAt(line, j, sp)
  {
    SearchIsLeftmostGreedy(line);
  }

  /** A marker with the given digit groups, as the transcoder prints it, followed by `rest`. */
  function MarkerLine(hours: string, minutes: string, seconds: string, fraction: string, rest: string): string {
    "time=" + (hours + (":" + (minutes + (":" + (seconds + ("." + (fraction + rest)))))))
  }

  /** A marker after a prefix without the letter `t` (so no earlier match can start there) and
      followed by anything reads back as the values of its hours, minutes and seconds. */
  lemma MarkerReadsBack(prefix: string, hours: string, minutes: string, seconds: string, fraction: string, rest: string)
    requires 't' !in prefix
    requires |hours| >= 1 && |minutes| >= 1 && |seconds| >= 1 && |fraction| >= 1
    requires AllDigits(hours) && AllDigits(minutes) && AllDigits(seconds) && AllDigits(fraction)
    ensures Marker(prefix + MarkerLine(hours, minutes, seconds, fraction, rest)) ==
      Some(Time(Value(hours), Value(minutes), Value(seconds)))
  {
    var marker := MarkerLine(hours, minutes, seconds, fraction, rest);
    var line := prefix + marker;
    var i := |prefix|;
    assert line[i..] == marker;
    forall j | 0 <= j < i
      ensures !KeyAt(line, j)
    {
      assert line[j] == prefix[j];
    }
    var sp := Span(|hours|, |minutes|, |seconds|, |fraction|);
    MarkerLineLayout(line, i, sp, hours, minutes, seconds, fraction, rest);
    MarkerAtOffset(line, i, sp, hours, minutes, seconds);
  }

  /** Where the groups and separators of a marker that starts at `i` stand. */
  lemma MarkerLineLayout(line: string, i: nat, sp: Span,
                         hours: string, minutes: string, seconds: string, fraction: string, rest: string)
    requires |hours| >= 1 && |minutes| >= 1 && |seconds| >= 1 && |fraction| >= 1
    requires AllDigits(hours) && AllDigits(minutes) && AllDigits(seconds) && AllDigits(fraction)
    requires i <= |line| && line[i..] == MarkerLine(hours, minutes, seconds, fraction, rest)
    requires sp == Span(|hours|, |minutes|, |seconds|, |fraction|)
    ensures MatchAt(line, i, sp) && !IsDigit(line[SecondsAt(i, sp) + sp.seconds])
    ensures line[i + 5..i + 5 + sp.hours] == hours
    ensures line[MinutesAt(i, sp)..MinutesAt(i, sp) + sp.minutes] == minutes
    ensures line[SecondsAt(i, sp)..SecondsAt(i, sp) + sp.seconds] == seconds
  {
    var t4 := seconds + ("." + (fraction + rest));
    var t2 := minutes + (":" + t4);
    KeyAtFrom(line, i, hours + (":" + t2));
    ColonGroupFrom(line, i + 5, hours, t2);
    assert line[i + 5..i + 5 + sp.hours] == hours;
    ColonGroupFrom(line, MinutesAt(i, sp), minutes, t4);
    assert line[MinutesAt(i, sp)..MinutesAt(i, sp) + sp.minutes] == minutes;
    SecondsFrom(line, SecondsAt(i, sp), seconds, fraction, rest);
    assert line[SecondsAt(i, sp)..SecondsAt(i, sp) + sp.seconds] == seconds;
  }

  /** `time=` at `i`, with `tail` after it. */
  lemma KeyAtFrom(line: string, i: nat, tail: string)
    requires i <= |line| && line[i..] == "time=" + tail
    ensures KeyAt(line, i) && line[i + 5..] == tail
  {
    assert forall j :: i <= j < |line| ==> line[j] == line[i..][j - i];
  }

  /** An `(\d+):` group `group` at `k`, with `tail` after the colon. */
  lemma ColonGroupFrom(line: string, k: nat, group: string, tail: string)
    requires k <= |line| && line[k..] == group + (":" + tail)
    requires |group| >= 1 && AllDigits(group)
    ensures ColonGroupAt(line, k, |group|) && line[k..k + |group|] == group && line[k + |group| + 1..] == tail
  {
    GroupAt(line, k, group, ":" + tail);
    SeparatorAt(line, k + |group|, ':', tail);
  }

  /** The `(\d+).(\d+)` groups `seconds` and `fraction` at `k`, with `rest` after them; the
      seconds group ends at the dot, which is not a digit. */
  lemma SecondsFrom(line: string, k: nat, seconds: string, fraction: string, rest: string)
    requires k <= |line| && line[k..] == seconds + ("." + (fraction + rest))
    requires |seconds| >= 1 && |fraction| >= 1 && AllDigits(seconds) && AllDigits(fraction)
    ensures SecondsFractionAt(line, k, |seconds|, |fraction|) && !IsDigit(line[k + |seconds|])
    ensures line[k..k + |seconds|] == seconds
  {
    GroupAt(line, k, seconds, "." + (fraction + rest));
    SeparatorAt(line, k + |seconds|, '.', fraction + rest);
    GroupAt(line, k + |seconds| + 1, fraction, rest);
  }

  /** The digit group `group` starts at `k` and `tail` follows it. */
  lemma GroupAt(line: string, k: nat, group: string, tail: string)
    requires k <= |line| && line[k..] == group + tail
    requires AllDigits(group)
    ensures DigitsIn(line, k, |group|) && line[k..k + |group|] == group && line[k + |group|..] == tail
  {
    assert forall j :: k <= j < k + |group| ==> line[j] == line[k..][j - k];
  }

  /** The character `c` stands at `k` and `tail` follows it. */
  lemma SeparatorAt(line: string, k: nat, c: char, tail: string)
    requires k <= |line| && line[k..] == [c] + tail
    ensures k < |line| && line[k] == c && line[k + 1..] == tail
  {
    assert line[k] == line[k..][0];
  }

  /** A match at `i`, with no `time=` before it and a non-digit after its seconds group, is the
      one reported, up to the length of its fraction group. */
  lemma FirstMatchAt(line: string, i: nat, sp: Span)
    requires MatchAt(line, i, sp)
    requires !IsDigit(line[SecondsAt(i, sp) + sp.seconds])
    requires forall j :: 0 <= j < i ==> !KeyAt(line, j)
    ensures var r := Search(line, 0);
      r.Some? && r.value.start == i && r.value.span.hours == sp.hours &&
      r.value.span.minutes == sp.minutes && r.value.span.seconds == sp.seconds
  {
    SearchIsLeftmostGreedy(line);
    var r := Search(line, 0).value;
    assert KeyAt(line, r.start);
    assert r.start == i;
    var best := r.span;
    assert Preferred(sp, best);
    assert SecondsAt(i, best) == SecondsAt(i, sp);
    assert DigitsIn(line, SecondsAt(i, sp), best.seconds);
    assert best.seconds <= sp.seconds;
  }

  /** The marker of a line whose first `time=` starts a match at `i` whose seconds group ends at
      a non-digit. */
  lemma MarkerAtOffset(line: string, i: nat, sp: Span, hours: string, minutes: string, seconds: string)
    requires MatchAt(line, i, sp)
    requires !IsDigit(line[SecondsAt(i, sp) + sp.seconds])
    requires forall j :: 0 <= j < i ==> !KeyAt(line, j)
    requires line[i + 5..i + 5 + sp.hours] == hours
    requires line[MinutesAt(i, sp)..MinutesAt(i, sp) + sp.minutes] == minutes
    requires line[SecondsAt(i, sp)..SecondsAt(i, sp) + sp.seconds] == seconds
    ensures Marker(line) == Some(Time(Value(hours), Value(minutes), Value(seconds)))
  {
    FirstMatchAt(line, i, sp);
    var f := Search(line, 0).value;
    var g := f.span;
    assert MinutesAt(i, g) == MinutesAt(i, sp) && SecondsAt(i, g) == SecondsAt(i, sp);
    assert line[f.start + 5..f.start + 5 + g.hours] == hours;
    assert line[MinutesAt(f.start, g)..MinutesAt(f.start, g) + g.minutes] == minutes;
    assert line[SecondsAt(f.start, g)..SecondsAt(f.start, g) + g.seconds] == seconds;
    MarkerOfGroups(line, f, hours, minutes, seconds);
  }

  /** The marker of a line where `Search` reports `f` and `f`'s groups are the given strings. */
  lemma MarkerOfGroups(line: string, f: Found, hours: string, minutes: string, seconds: string)
    requires Search(line, 0) == Some(f)
    requires SecondsAt(f.start, f.span) + f.span.seconds <= |line|
    requires line[f.start + 5..f.start + 5 + f.span.hours] == hours
    requires line[MinutesAt(f.start, f.span)..MinutesAt(f.start, f.span) + f.span.minutes] == minutes
    requires line[SecondsAt(f.start, f.span)..SecondsAt(f.start, f.span) + f.span.seconds] == seconds
    ensures Marker(line) == Some(Time(Value(hours), Value(minutes), Value(seconds)))
  {
    MarkerOf(line, f);
    GroupValuesOf(line, f, hours, minutes, seconds);
  }

  /** The group values of a match whose groups are the given digit strings. */
  lemma GroupValuesOf(line: string, f: Found, hours: string, minutes: string, seconds: string)
    requires SecondsAt(f.start, f.span) + f.span.seconds <= |line|
    requires line[f.start + 5..f.start + 5 + f.span.hours] == hours
    requires line[MinutesAt(f.start, f.span)..MinutesAt(f.start, f.span) + f.span.minutes] == minutes
    requires line[SecondsAt(f.start, f.span)..SecondsAt(f.start, f.span) + f.span.seconds] == seconds
    ensures GroupValues(line, f) == Time(Value(hours), Value(minutes), Value(seconds))
  {
  }

  /** `Marker` reads the groups of what `Search` reports. */
  lemma MarkerOf(line: string, f: Found)
    requires Search(line, 0) == Some(f)
    requires SecondsAt(f.start, f.span) + f.span.seconds <= |line|
    ensures Marker(line) == Some(GroupValues(line, f))
  {
  }

  /** Whole seconds the marker denotes. */
  function Elapsed(t: Time): nat {
    t.hours * 3600 + t.minutes * 60 + t.seconds
  }
}
