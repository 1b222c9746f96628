/**
 * Phone-number text handling of the bot: the digits-only projection used as the
 * join key (clean_phone_number) and the candidate extraction that the channel
 * listener runs over every inbound message, the regular expression
 * (\+?\d[ \d\-\(\)]{8,}\d) applied with findall semantics.
 */
module Phone {
  import opened Options

  predicate IsDigit(c: char) { '0' <= c <= '9' }

  predicate AllDigits(s: string) { forall i :: 0 <= i < |s| ==> IsDigit(s[i]) }

  /** clean_phone_number: every non-digit character is removed. */
  function Clean(s: string): (r: string)
    ensures |r| <= |s|
    ensures AllDigits(r)
  {
    if s == [] then []
    else if IsDigit(s[0]) then [s[0]] + Clean(s[1..])
    else Clean(s[1..])
  }

  /** Cleaning distributes over concatenation. */
  lemma {:induction false} CleanAppend(a: string, b: string)
    ensures Clean(a + b) == Clean(a) + Clean(b)
  {
    if a == [] {
      assert a + b == b;
    } else {
      assert (a + b)[0] == a[0];
      assert (a + b)[1..] == a[1..] + b;
      CleanAppend(a[1..], b);
    }
  }

  /**
   * Each character of the input contributes itself to the result when it is a
   * digit and nothing otherwise, in its own place: together with Clean("") == ""
   * this determines Clean completely.
   */
  lemma {:induction false} CleanKeepsDigitsInPlace(a: string, c: char, b: string)
    ensures Clean(a + [c] + b) == Clean(a) + (if IsDigit(c) then [c] else []) + Clean(b)
  {
    CleanAppend(a + [c], b);
    CleanAppend(a, [c]);
    assert [c][1..] == [];
  }

  /** A string that is all digits is left as it is. */
  lemma {:induction false} CleanOfDigits(s: string)
    requires AllDigits(s)
    ensures Clean(s) == s
  {
    if s != [] {
      CleanOfDigits(s[1..]);
      assert s == [s[0]] + s[1..];
    }
  }

  /** Cleaning twice is cleaning once. */
  lemma {:induction false} CleanIdempotent(s: string)
    ensures Clean(Clean(s)) == Clean(s)
  {
    CleanOfDigits(Clean(s));
  }

  /** The result holds every digit of the input as many times as the input does, and nothing else. */
  lemma {:induction false} CleanKeepsDigitCounts(s: string)
    ensures forall c :: multiset(Clean(s))[c] == if IsDigit(c) then multiset(s)[c] else 0
  {
    if s != [] {
      CleanKeepsDigitCounts(s[1..]);
      assert s == [s[0]] + s[1..];
      assert multiset(s) == multiset([s[0]]) + multiset(s[1..]);
      if IsDigit(s[0]) {
        assert multiset(Clean(s)) == multiset([s[0]]) + multiset(Clean(s[1..]));
      }
    }
  }

  // ---------------------------------------------------------------------------
  // Candidate extraction

  /** The characters of the class [ \d\-\(\)]. */
  predicate IsNumberChar(c: char) { c == ' ' || IsDigit(c) || c == '-' || c == '(' || c == ')' }

  /** The class [ \d\-\(\)]{8,} must cover at least this many characters. */
  const MinInner: nat := 8

  /** A half-open range [start, end) of positions in the message text. */
  datatype Span = Span(start: nat, end: nat)

  /**
   * The text at sp matches the pattern: an optional '+', a digit, at least
   * MinInner characters of the class, and a final digit.
   */
  ghost predicate NumberShape(s: string, sp: Span)
  {
    && sp.start < sp.end <= |s|
    && var d := if s[sp.start] == '+' then sp.start + 1 else sp.start;
    && d < sp.end
    && IsDigit(s[d])
    && IsDigit(s[sp.end - 1])
    && sp.end - d - 2 >= MinInner
    && forall k :: d <= k < sp.end ==> IsNumberChar(s[k])
  }

  /** No match of the pattern starts at p. */
  ghost predicate NoShapeAt(s: string, p: nat)
  {
    forall sp: Span :: sp.start == p ==> !NumberShape(s, sp)
  }

  /** No longer match starts where sp starts (the match is the longest one). */
  ghost predicate Longest(s: string, sp: Span)
  {
    forall other: Span :: other.start == sp.start && sp.end < other.end ==> !NumberShape(s, other)
  }

  /** End of the run of class characters that begins at i. */
  function RunEnd(s: string, i: nat): (q: nat)
    requires i <= |s|
    ensures i <= q <= |s|
    ensures forall k :: i <= k < q ==> IsNumberChar(s[k])
    ensures q < |s| ==> !IsNumberChar(s[q])
    decreases |s| - i
  {
    if i == |s| || !IsNumberChar(s[i]) then i else RunEnd(s, i + 1)
  }

  /** The last digit in [lo, hi): where the greedy class backs off to. */
  function LastDigit(s: string, lo: nat, hi: nat): (r: Option<nat>)
    requires lo <= hi <= |s|
    ensures r.Some? ==> lo <= r.value < hi && IsDigit(s[r.value])
    ensures r.Some? ==> forall k :: r.value < k < hi ==> !IsDigit(s[k])
    ensures r.None? ==> forall k :: lo <= k < hi ==> !IsDigit(s[k])
    decreases hi - lo
  {
    if lo == hi then None
    else if IsDigit(s[hi - 1]) then Some(hi - 1)
    else LastDigit(s, lo, hi - 1)
  }

  /** Position of the mandatory first digit when a match is tried at p. */
  function FirstDigit(s: string, p: nat): Option<nat>
    requires p < |s|
  {
    if IsDigit(s[p]) then Some(p)
    else if s[p] == '+' && p + 1 < |s| && IsDigit(s[p + 1]) then Some(p + 1)
    else None
  }

  /**
   * One attempt of the regular expression at position p: the class runs as far
   * as it can and backs off to its last digit. The attempt succeeds exactly when
   * some match starts at p, and then it returns the longest one.
   */
  function MatchAt(s: string, p: nat): (m: Option<Span>)
    requires p < |s|
    ensures m.Some? ==> m.value.start == p && NumberShape(s, m.value) && Longest(s, m.value)
    ensures m.None? ==> NoShapeAt(s, p)
  {
    match FirstDigit(s, p)
    case None => None
    case Some(d) =>
      var q := RunEnd(s, d + 1);
      match LastDigit(s, d + 1, q)
      case None => None
      case Some(j) => if j - d - 1 >= MinInner then Some(Span(p, j + 1)) else None
  }

  /** Position p lies inside none of the spans. */
  ghost predicate Uncovered(r: seq<Span>, p: nat)
  {
    forall i :: 0 <= i < |r| ==> !(r[i].start <= p < r[i].end)
  }

  /**
   * findall from position pos: try a match at each position from left to right
   * and, after a match, go on where it ends. Every match spans at least
   * MinInner + 2 characters, so there are at most that many times fewer
   * matches than characters.
   */
  function Scan(s: string, pos: nat): (r: seq<Span>)
    requires pos <= |s|
    ensures (MinInner + 2) * |r| <= |s| - pos
    decreases |s| - pos
  {
    if pos == |s| then []
    else match MatchAt(s, pos)
      case Some(sp) => [sp] + Scan(s, sp.end)
      case None => Scan(s, pos + 1)
  }

  /** Every span findall reports from pos is a match at or after pos, the longest from its start. */
  lemma {:induction false} ScanMatches(s: string, pos: nat)
    requires pos <= |s|
    ensures forall sp :: sp in Scan(s, pos) ==> pos <= sp.start && NumberShape(s, sp) && Longest(s, sp)
    decreases |s| - pos
  {
    if pos < |s| {
      match MatchAt(s, pos)
      case Some(sp) =>
        ScanMatches(s, sp.end);
        assert Scan(s, pos) == [sp] + Scan(s, sp.end);
      case None =>
        ScanMatches(s, pos + 1);
    }
  }

  /** The spans findall reports come in text order and do not overlap. */
  lemma {:induction false} ScanOrdered(s: string, pos: nat)
    requires pos <= |s|
    ensures forall i :: 0 < i < |Scan(s, pos)| ==> Scan(s, pos)[i - 1].end <= Scan(s, pos)[i].start
    decreases |s| - pos
  {
    if pos < |s| {
      match MatchAt(s, pos)
      case Some(sp) =>
        ScanOrdered(s, sp.end);
        ScanMatches(s, sp.end);
        var rest := Scan(s, sp.end);
        assert Scan(s, pos) == [sp] + rest;
        forall i | 0 < i < |Scan(s, pos)|
          ensures Scan(s, pos)[i - 1].end <= Scan(s, pos)[i].start
        {
          assert Scan(s, pos)[i] == rest[i - 1];
          if i == 1 {
            assert rest[0] in rest;
          } else {
            assert Scan(s, pos)[i - 1] == rest[i - 2];
          }
        }
      case None =>
        ScanOrdered(s, pos + 1);
    }
  }

  /** Every span findall reports is a match, the longest from its start, and they come in text order without overlap. */
  lemma ScanSound(s: string, pos: nat)
    requires pos <= |s|
    ensures forall i :: 0 <= i < |Scan(s, pos)| ==>
      pos <= Scan(s, pos)[i].start && NumberShape(s, Scan(s, pos)[i]) && Longest(s, Scan(s, pos)[i])
    ensures forall i :: 0 < i < |Scan(s, pos)| ==> Scan(s, pos)[i - 1].end <= Scan(s, pos)[i].start
  {
    ScanMatches(s, pos);
    ScanOrdered(s, pos);
    var r := Scan(s, pos);
    assert forall i :: 0 <= i < |r| ==> r[i] in r;
  }

  /** findall misses nothing: no match starts at a position that no reported span covers. */
  lemma {:induction false} ScanComplete(s: string, pos: nat)
    requires pos <= |s|
    ensures forall p :: pos <= p < |s| && Uncovered(Scan(s, pos), p) ==> NoShapeAt(s, p)
    decreases |s| - pos
  {
    if pos < |s| {
      match MatchAt(s, pos)
      case Some(sp) =>
        ScanComplete(s, sp.end);
        var rest := Scan(s, sp.end);
        var r := [sp] + rest;
        assert Scan(s, pos) == r;
        forall p | pos <= p < |s| && Uncovered(r, p) ensures NoShapeAt(s, p) {
          assert r[0] == sp;
          forall i | 0 <= i < |rest| ensures !(rest[i].start <= p < rest[i].end) {
            assert r[i + 1] == rest[i];
          }
        }
      case None =>
        ScanComplete(s, pos + 1);
    }
  }

  /** findall reports nothing exactly when no match starts anywhere. */
  lemma {:induction false} ScanEmpty(s: string, pos: nat)
    requires pos <= |s|
    ensures Scan(s, pos) == [] <==> forall p :: pos <= p < |s| ==> NoShapeAt(s, p)
    decreases |s| - pos
  {
    if pos < |s| {
      match MatchAt(s, pos)
      case Some(sp) =>
        assert !NoShapeAt(s, pos) by { assert NumberShape(s, Span(pos, sp.end)); }
      case None =>
        ScanEmpty(s, pos + 1);
    }
  }

  /** A candidate string: its whole text is a match of the pattern. */
  ghost predicate IsCandidate(t: string)
  {
    NumberShape(t, Span(0, |t|))
  }

  /** re.findall over the whole message: the matched texts, in order. */
  function FindNumbers(s: string): (r: seq<string>)
    ensures forall i :: 0 <= i < |r| ==> IsCandidate(r[i])
    ensures (MinInner + 2) * |r| <= |s|
  {
    var spans := Scan(s, 0);
    ScanSound(s, 0);
    seq(|spans|, i requires 0 <= i < |spans| => s[spans[i].start..spans[i].end])
  }

  /** An eight-digit number written without separators is too short to be picked up. */
  lemma EightDigitsAreNotExtracted(s: string)
    requires s == "code 123456 for 15550100"
    ensures FindNumbers(s) == []
  {
    forall sp: Span ensures !NumberShape(s, sp) {
      assert |s| == 24 && s[12] == 'f' && s[13] == 'o' && s[14] == 'r' && s[15] == ' ';
    }
    assert forall p :: 0 <= p < |s| ==> NoShapeAt(s, p);
    ScanEmpty(s, 0);
  }

  /** Positions where no match starts are passed over one by one. */
  lemma {:induction false} ScanSkips(s: string, p: nat, q: nat)
    requires p <= q <= |s|
    requires forall k :: p <= k < q ==> NoShapeAt(s, k)
    ensures Scan(s, p) == Scan(s, q)
    decreases q - p
  {
    if p < q {
      assert NoShapeAt(s, p);
      ScanSkips(s, p + 1, q);
    }
  }

  /** A text in which every match lies inside one match yields exactly that one. */
  lemma {:induction false} ScanSingleMatch(s: string, a: nat, b: nat)
    requires NumberShape(s, Span(a, b))
    requires forall sp: Span :: NumberShape(s, sp) ==> a <= sp.start && sp.end <= b
    ensures Scan(s, 0) == [Span(a, b)]
  {
    assert forall k :: 0 <= k < a ==> NoShapeAt(s, k);
    ScanSkips(s, 0, a);
    assert MatchAt(s, a) == Some(Span(a, b));
    assert forall k :: b <= k < |s| ==> NoShapeAt(s, k);
    ScanEmpty(s, b);
  }

  /** A text whose scan finds a single span yields the text of that span. */
  lemma FindNumbersOfSingleSpan(s: string, a: nat, b: nat)
    requires Scan(s, 0) == [Span(a, b)]
    ensures a <= b <= |s| && FindNumbers(s) == [s[a..b]]
  {
    ScanSound(s, 0);
    assert Scan(s, 0)[0] == Span(a, b);
    assert NumberShape(s, Span(a, b));
    var r := FindNumbers(s);
    assert |r| == 1 && r[0] == s[a..b];
  }

  /** In the sample message every match lies within positions 13 to 29. */
  lemma InternationalSampleBounds(s: string)
    requires s == "OTP 4821 for +880 1712-345678."
    ensures forall sp: Span :: NumberShape(s, sp) ==> 13 <= sp.start && sp.end <= 29
  {
    forall sp: Span | NumberShape(s, sp) ensures 13 <= sp.start && sp.end <= 29 {
      assert |s| == 30 && s[3] == ' ' && s[8] == ' ' && s[9] == 'f' && s[10] == 'o' && s[11] == 'r';
      assert s[12] == ' ' && s[13] == '+' && s[29] == '.';
      assert !IsDigit(s[0]) && !IsDigit(s[1]) && !IsDigit(s[2]);
    }
  }

  /** In the sample message positions 13 to 29 hold a match. */
  lemma InternationalSampleShape(s: string)
    requires s == "OTP 4821 for +880 1712-345678."
    ensures NumberShape(s, Span(13, 29)) && s[13..29] == "+880 1712-345678"
  {
    assert forall k :: 14 <= k < 29 ==> IsNumberChar(s[k]);
  }

  /** A number in international form inside a message is picked up whole, without the full stop. */
  lemma InternationalNumberIsExtracted(s: string)
    requires s == "OTP 4821 for +880 1712-345678."
    ensures FindNumbers(s) == ["+880 1712-345678"]
  {
    InternationalSampleBounds(s);
    InternationalSampleShape(s);
    ScanSingleMatch(s, 13, 29);
    FindNumbersOfSingleSpan(s, 13, 29);
  }
}
