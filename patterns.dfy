/** The three regular expressions the crawlers run with the `g` flag, written as scanners:

      Email        /[A-Z0-9._%+-]+@[A-Z0-9.-]+\.[A-Z]{2,}/gi
      Phone        /(\+?\d[\d\-\s]{7,}\d)/g
      DutchMobile  /(\+31|0)6\s?\d{8}/g

    `String.prototype.match` with a global expression tries a match at every position from the
    left; a match found at position p is taken whole (quantifiers are greedy and give back
    characters only as far as the rest of the expression needs), and the search resumes at its
    end, so matches never overlap. `MatchAt` is the backtracking matcher anchored at one
    position; `Spans` is the global search. */
module Patterns {
  import opened Wrappers
  import opened Js
  import opened Seqs

  datatype Pattern = Email | Phone | DutchMobile

  /** `[\d\-\s]` */
  predicate IsPhoneBodyChar(c: char) {
    IsDigit(c) || c == '-' || IsSpace(c)
  }

  /** `[A-Z0-9._%+-]` under the `i` flag. */
  predicate IsLocalChar(c: char) {
    IsAsciiLetter(c) || IsDigit(c) || c == '.' || c == '_' || c == '%' || c == '+' || c == '-'
  }

  /** `[A-Z0-9.-]` under the `i` flag. */
  predicate IsDomainChar(c: char) {
    IsAsciiLetter(c) || IsDigit(c) || c == '.' || c == '-'
  }

  predicate AllDigitsIn(s: string, i: nat, j: nat) {
    i <= j <= |s| && forall k :: i <= k < j ==> IsDigit(s[k])
  }

  // ---------------------------------------------------------------------------------------
  // The languages of the three expressions, stated on a candidate match `m`.

  /** `\d[\d\-\s]{7,}\d` */
  predicate PhoneCore(m: string) {
    |m| >= 9 && IsDigit(m[0]) && IsDigit(m[|m| - 1])
    && forall k :: 0 < k < |m| - 1 ==> IsPhoneBodyChar(m[k])
  }

  /** `\+?\d[\d\-\s]{7,}\d` */
  predicate PhoneShape(m: string) {
    PhoneCore(m) || (|m| >= 1 && m[0] == '+' && PhoneCore(m[1..]))
  }

  /** `m` is a local part ending before `a`, `@` at `a`, a domain up to the dot at `k`, and a
      top-level domain of at least two letters after it. */
  predicate EmailShapeAt(m: string, a: nat, k: nat) {
    0 < a && a + 1 < k && k + 2 < |m| && m[a] == '@' && m[k] == '.'
    && (forall i :: 0 <= i < a ==> IsLocalChar(m[i]))
    && (forall i :: a < i < k ==> IsDomainChar(m[i]))
    && (forall i :: k < i < |m| ==> IsAsciiLetter(m[i]))
  }

  /** `[A-Z0-9._%+-]+@[A-Z0-9.-]+\.[A-Z]{2,}` under the `i` flag. */
  ghost predicate EmailShape(m: string) {
    exists a: nat, k: nat :: EmailShapeAt(m, a, k)
  }

  /** `6\s?\d{8}` after the `+31`/`0` prefix has been read. */
  predicate DutchTail(t: string) {
    (|t| == 8 && AllDigitsIn(t, 0, 8)) || (|t| == 9 && IsSpace(t[0]) && AllDigitsIn(t, 1, 9))
  }

  /** `(\+31|0)6\s?\d{8}` */
  predicate DutchMobileShape(m: string) {
    (StartsWith(m, "+316") && DutchTail(m[4..])) || (StartsWith(m, "06") && DutchTail(m[2..]))
  }

  ghost predicate Shape(pat: Pattern, m: string) {
    match pat
    case Email => EmailShape(m)
    case Phone => PhoneShape(m)
    case DutchMobile => DutchMobileShape(m)
  }

  // ---------------------------------------------------------------------------------------
  // Scanning helpers.

  /** The last position in `[lo, hi)` holding a digit: where a greedy `[\d\-\s]{7,}` stops
      giving back characters so that the closing `\d` matches. */
  function LastDigit(s: string, lo: nat, hi: nat): (r: Option<nat>)
    requires hi <= |s|
    ensures r.Some? ==> lo <= r.value < hi && IsDigit(s[r.value])
    ensures r.Some? ==> forall k :: r.value < k < hi ==> !IsDigit(s[k])
    ensures r.None? ==> forall k :: lo <= k < hi ==> !IsDigit(s[k])
    decreases hi
  {
    if hi <= lo then None
    else if IsDigit(s[hi - 1]) then Some(hi - 1)
    else LastDigit(s, lo, hi - 1)
  }

  /** A `\.` at `k` followed by the two letters `[A-Z]{2,}` needs at least. */
  predicate TldDotAt(s: string, k: nat) {
    k + 2 < |s| && s[k] == '.' && IsAsciiLetter(s[k + 1]) && IsAsciiLetter(s[k + 2])
  }

  /** The last position in `[lo, hi)` where a top-level domain can start: where a greedy
      `[A-Z0-9.-]+` stops giving back characters so that `\.[A-Z]{2,}` matches. */
  function LastTldDot(s: string, lo: nat, hi: nat): (r: Option<nat>)
    requires hi <= |s|
    ensures r.Some? ==> lo <= r.value < hi && TldDotAt(s, r.value)
    ensures r.Some? ==> forall k :: r.value < k < hi ==> !TldDotAt(s, k)
    ensures r.None? ==> forall k :: lo <= k < hi ==> !TldDotAt(s, k)
    decreases hi
  {
    if hi <= lo then None
    else if TldDotAt(s, hi - 1) then Some(hi - 1)
    else LastTldDot(s, lo, hi - 1)
  }

  // ---------------------------------------------------------------------------------------
  // Anchored matchers.

  /** `\d[\d\-\s]{7,}\d` anchored at `q`. */
  function PhoneCoreAt(s: string, q: nat): (r: Option<nat>)
    requires q < |s|
    ensures r.Some? ==> q < r.value <= |s| && PhoneCore(s[q..r.value])
  {
    if !IsDigit(s[q]) then None
    else
      var e := RunEnd(IsPhoneBodyChar, s, q + 1);
      match LastDigit(s, q + 8, e)
      case None => None
      case Some(j) =>
        assert forall k :: q < k < j ==> IsPhoneBodyChar(s[k]);
        Some(j + 1)
  }

  /** `\+?\d[\d\-\s]{7,}\d` anchored at `p`. `\+?` first tries to take a `+`; giving it back
      cannot help, since the `\d` after it would then have to match the `+`. */
  function PhoneAt(s: string, p: nat): (r: Option<nat>)
    requires p < |s|
    ensures r.Some? ==> p < r.value <= |s| && PhoneShape(s[p..r.value])
  {
    if s[p] == '+' then
      if p + 1 < |s| then
        var r := PhoneCoreAt(s, p + 1);
        assert r.Some? ==> s[p..r.value][1..] == s[p + 1..r.value];
        r
      else None
    else PhoneCoreAt(s, p)
  }

  /** The email expression anchored at `p`. `[A-Z0-9._%+-]+` cannot give back characters
      usefully (the `@` after it is not in its class), so it reads its whole run. */
  function EmailAt(s: string, p: nat): (r: Option<nat>)
    requires p < |s|
    ensures r.Some? ==> p < r.value <= |s| && EmailShape(s[p..r.value])
  {
    var a := RunEnd(IsLocalChar, s, p);
    if a == p || a == |s| || s[a] != '@' then None
    else
      var e := RunEnd(IsDomainChar, s, a + 1);
      match LastTldDot(s, a + 2, e)
      case None => None
      case Some(k) =>
        var end := RunEnd(IsAsciiLetter, s, k + 1);
        assert EmailShapeAt(s[p..end], a - p, k - p);
        Some(end)
  }

  /** Digits between `i` and `j` of `s` are the digits of the piece `s[i..j]`. */
  lemma AllDigitsInPiece(s: string, i: nat, j: nat, d: nat)
    requires AllDigitsIn(s, i + d, j) && i <= i + d
    ensures AllDigitsIn(s[i..j], d, j - i)
  {
    forall k | d <= k < j - i ensures IsDigit(s[i..j][k]) {
      assert s[i..j][k] == s[i + k];
    }
  }

  /** A `+316` or `06` prefix at `p` followed, from `q`, by a tail of the expression gives a
      match of the whole expression. */
  lemma DutchMobileShapeOf(s: string, p: nat, q: nat, e: nat)
    requires p < q <= e <= |s|
    requires (q == p + 4 && StartsWith(s[p..], "+316")) || (q == p + 2 && StartsWith(s[p..], "06"))
    requires DutchTail(s[q..e])
    ensures DutchMobileShape(s[p..e])
  {
    var m := s[p..e];
    assert m[..q - p] == s[p..][..q - p];
    assert m[q - p..] == s[q..e];
  }

  /** `(\+31|0)6\s?\d{8}` anchored at `p`. The two alternatives begin with different
      characters, and `\s?` giving back a white-space character would leave it for `\d`. */
  function DutchMobileAt(s: string, p: nat): (r: Option<nat>)
    requires p < |s|
    ensures r.Some? ==> p < r.value <= |s| && DutchMobileShape(s[p..r.value])
  {
    var q: nat :=
      if StartsWith(s[p..], "+316") then p + 4
      else if StartsWith(s[p..], "06") then p + 2
      else 0;
    if q == 0 then None
    else if q < |s| && IsSpace(s[q]) && AllDigitsIn(s, q + 1, q + 9) then
      AllDigitsInPiece(s, q, q + 9, 1);
      assert s[q..q + 9][0] == s[q];
      DutchMobileShapeOf(s, p, q, q + 9);
      Some(q + 9)
    else if AllDigitsIn(s, q, q + 8) then
      AllDigitsInPiece(s, q, q + 8, 0);
      DutchMobileShapeOf(s, p, q, q + 8);
      Some(q + 8)
    else None
  }

  /** The expression `pat` anchored at `p`: the end of the match that starts there, if any. */
  function MatchAt(pat: Pattern, s: string, p: nat): (r: Option<nat>)
    requires p < |s|
    ensures r.Some? ==> p < r.value <= |s| && Shape(pat, s[p..r.value])
  {
    match pat
    case Email => EmailAt(s, p)
    case Phone => PhoneAt(s, p)
    case DutchMobile => DutchMobileAt(s, p)
  }

  // ---------------------------------------------------------------------------------------
  // Completeness: where the expression matches, the anchored matcher finds the longest match.

  /** A run of characters in the class from `i` to `j` reaches at least `j`. */
  lemma RunEndAtLeast(pr: char -> bool, s: string, i: nat, j: nat)
    requires i <= j <= |s|
    requires forall k :: i <= k < j ==> pr(s[k])
    ensures j <= RunEnd(pr, s, i)
  {
  }

  /** An e-mail shape of the piece `s[p..e]`, read off `s` itself. */
  lemma EmailShapeInText(s: string, p: nat, e: nat, a: nat, k: nat)
    requires p < e <= |s| && EmailShapeAt(s[p..e], a, k)
    ensures 0 < a && a + 1 < k && p + k + 2 < e
    ensures s[p + a] == '@' && s[p + k] == '.'
    ensures forall i :: p <= i < p + a ==> IsLocalChar(s[i])
    ensures forall i :: p + a < i < p + k ==> IsDomainChar(s[i])
    ensures forall i :: p + k < i < e ==> IsAsciiLetter(s[i])
  {
    var m := s[p..e];
    assert forall i :: 0 <= i < |m| ==> m[i] == s[p + i];
    forall i | p <= i < p + a ensures IsLocalChar(s[i]) {
      assert s[i] == m[i - p];
    }
    forall i | p + a < i < p + k ensures IsDomainChar(s[i]) {
      assert s[i] == m[i - p];
    }
    forall i | p + k < i < e ensures IsAsciiLetter(s[i]) {
      assert s[i] == m[i - p];
    }
  }

  /** `EmailAt` from the three runs and the top-level-domain dot it reads. */
  lemma EmailAtFromRuns(s: string, p: nat, at: nat, k: nat)
    requires p < at < |s| && s[at] == '@' && RunEnd(IsLocalChar, s, p) == at
    requires LastTldDot(s, at + 2, RunEnd(IsDomainChar, s, at + 1)) == Some(k)
    ensures EmailAt(s, p) == Some(RunEnd(IsAsciiLetter, s, k + 1))
  {
  }

  /** The local part of a given e-mail shape is the run `EmailAt` reads before the `@`. */
  lemma EmailLocalRun(s: string, p: nat, e: nat, a: nat, k: nat)
    requires p < e <= |s| && EmailShapeAt(s[p..e], a, k)
    ensures p + a + 1 < |s| && s[p + a] == '@' && RunEnd(IsLocalChar, s, p) == p + a
  {
    EmailShapeInText(s, p, e, a, k);
    RunEndIs(IsLocalChar, s, p, p + a);
  }

  /** The top-level-domain dot `EmailAt` reads is the one of a given e-mail shape, or lies past
      its end. */
  lemma EmailTldDot(s: string, p: nat, e: nat, a: nat, k: nat) returns (k2: nat)
    requires p < e <= |s| && EmailShapeAt(s[p..e], a, k)
    ensures LastTldDot(s, p + a + 2, RunEnd(IsDomainChar, s, p + a + 1)) == Some(k2)
    ensures k2 == p + k || e <= k2
    ensures k2 == p + k ==> forall i :: k2 < i < e ==> IsAsciiLetter(s[i])
  {
    EmailShapeInText(s, p, e, a, k);
    var dot := p + k;
    RunEndAtLeast(IsDomainChar, s, p + a + 1, dot + 1);
    assert TldDotAt(s, dot);
    k2 := LastTldDot(s, p + a + 2, RunEnd(IsDomainChar, s, p + a + 1)).value;
  }

  lemma EmailAtComplete(s: string, p: nat, e: nat)
    requires p < e <= |s| && EmailShape(s[p..e])
    ensures EmailAt(s, p).Some? && e <= EmailAt(s, p).value
  {
    var a: nat, k: nat :| EmailShapeAt(s[p..e], a, k);
    EmailLocalRun(s, p, e, a, k);
    var k2 := EmailTldDot(s, p, e, a, k);
    EmailAtFromRuns(s, p, p + a, k2);
    if k2 == p + k {
      RunEndAtLeast(IsAsciiLetter, s, k2 + 1, e);
    }
  }

  lemma PhoneCoreAtComplete(s: string, q: nat, e: nat)
    requires q < e <= |s| && PhoneCore(s[q..e])
    ensures PhoneCoreAt(s, q).Some? && e <= PhoneCoreAt(s, q).value
  {
    var m := s[q..e];
    assert forall i :: 0 <= i < |m| ==> m[i] == s[q + i];
    RunEndAtLeast(IsPhoneBodyChar, s, q + 1, e);
    var e1 := RunEnd(IsPhoneBodyChar, s, q + 1);
    assert IsDigit(s[e - 1]);
    var j := LastDigit(s, q + 8, e1).value;
    assert e - 1 <= j;
  }

  lemma PhoneAtComplete(s: string, p: nat, e: nat)
    requires p < e <= |s| && PhoneShape(s[p..e])
    ensures PhoneAt(s, p).Some? && e <= PhoneAt(s, p).value
  {
    var m := s[p..e];
    if s[p] == '+' {
      assert !PhoneCore(m) && m[1..] == s[p + 1..e];
      PhoneCoreAtComplete(s, p + 1, e);
    } else {
      PhoneCoreAtComplete(s, p, e);
    }
  }

  /** A prefix of the piece `s[p..e]` is a prefix of `s[p..]`. */
  lemma PrefixOfPiece(s: string, p: nat, e: nat, w: string)
    requires p <= e <= |s| && StartsWith(s[p..e], w)
    ensures StartsWith(s[p..], w)
  {
    assert s[p..e][..|w|] == s[p..][..|w|];
  }

  /** The tail `6\s?\d{8}` of a Dutch mobile number, read off `s` itself. */
  lemma DutchTailInText(s: string, q: nat, e: nat)
    requires q <= e <= |s| && DutchTail(s[q..e])
    ensures q < |s|
    ensures (e == q + 8 && !IsSpace(s[q]) && AllDigitsIn(s, q, q + 8))
         || (e == q + 9 && IsSpace(s[q]) && AllDigitsIn(s, q + 1, q + 9))
  {
    var t := s[q..e];
    assert forall i :: 0 <= i < |t| ==> t[i] == s[q + i];
    if |t| == 8 {
      assert IsDigit(t[0]);
      forall i | q <= i < q + 8 ensures IsDigit(s[i]) {
        assert s[i] == t[i - q];
      }
    } else {
      forall i | q + 1 <= i < q + 9 ensures IsDigit(s[i]) {
        assert s[i] == t[i - q];
      }
    }
  }

  lemma DutchMobileAtComplete(s: string, p: nat, e: nat)
    requires p < e <= |s| && DutchMobileShape(s[p..e])
    ensures DutchMobileAt(s, p).Some? && e <= DutchMobileAt(s, p).value
  {
    var m := s[p..e];
    var q: nat;
    if StartsWith(m, "+316") {
      PrefixOfPiece(s, p, e, "+316");
      assert !StartsWith(m, "06") by {
        assert m[0] == m[..4][0] == '+';
      }
      q := p + 4;
    } else {
      PrefixOfPiece(s, p, e, "06");
      assert !StartsWith(s[p..], "+316") by {
        assert s[p] == m[..2][0] == '0';
        assert s[p] == s[p..][..4][0];
      }
      q := p + 2;
    }
    assert m[q - p..] == s[q..e];
    DutchTailInText(s, q, e);
  }

  /** Where a piece of `s` starting at `p` is in the expression's language, the anchored matcher
      matches at `p`, and what it takes is at least that long: the longest such piece. */
  lemma MatchAtComplete(pat: Pattern, s: string, p: nat, e: nat)
    requires p < e <= |s| && Shape(pat, s[p..e])
    ensures MatchAt(pat, s, p).Some? && e <= MatchAt(pat, s, p).value
  {
    match pat
    case Email => EmailAtComplete(s, p, e);
    case Phone => PhoneAtComplete(s, p, e);
    case DutchMobile => DutchMobileAtComplete(s, p, e);
  }

  /** The anchored matcher fails at `p` exactly when no piece of `s` starting at `p` is in the
      expression's language. */
  lemma MatchAtNoneIff(pat: Pattern, s: string, p: nat)
    requires p < |s|
    ensures MatchAt(pat, s, p).None? <==> forall e :: p < e <= |s| ==> !Shape(pat, s[p..e])
  {
    forall e | p < e <= |s| && Shape(pat, s[p..e])
      ensures MatchAt(pat, s, p).Some?
    {
      MatchAtComplete(pat, s, p, e);
    }
  }

  // ---------------------------------------------------------------------------------------
  // Global matching.

  /** What a global search needs of an anchored matcher `at` on a text of length `n`: a match
      starting inside the text ends after its start and no later than the text. */
  ghost predicate Advances(at: nat -> Option<nat>, n: nat) {
    forall p: nat :: p < n && at(p).Some? ==> p < at(p).value <= n
  }

  /** The global search with the anchored matcher `at` from position `p`: try at `p`; on a
      match take it and resume at its end, otherwise move on by one. */
  function Scan(at: nat -> Option<nat>, n: nat, p: nat): (r: seq<(nat, nat)>)
    requires p <= n && Advances(at, n)
    ensures forall k :: 0 <= k < |r| ==> p <= r[k].0 < r[k].1 <= n
    ensures forall k :: 0 <= k < |r| - 1 ==> r[k].1 <= r[k + 1].0
    decreases n - p
  {
    if p == n then []
    else
      match at(p)
      case None => Scan(at, n, p + 1)
      case Some(e) =>
        var rest := Scan(at, n, e);
        var r := [(p, e)] + rest;
        assert forall k :: 0 < k < |r| ==> r[k] == rest[k - 1];
        r
  }

  /** Every span the search finds is one the anchored matcher accepted at the span's start. */
  lemma {:induction false} ScanMatched(at: nat -> Option<nat>, n: nat, p: nat, k: nat)
    requires p <= n && Advances(at, n) && k < |Scan(at, n, p)|
    ensures at(Scan(at, n, p)[k].0) == Some(Scan(at, n, p)[k].1)
    decreases n - p
  {
    var r := Scan(at, n, p);
    if at(p).None? {
      ScanMatched(at, n, p + 1, k);
    } else if k > 0 {
      var e := at(p).value;
      assert r[k] == Scan(at, n, e)[k - 1];
      ScanMatched(at, n, e, k - 1);
    }
  }

  /** The search finds nothing exactly when the matcher accepts at no position. */
  lemma {:induction false} ScanEmpty(at: nat -> Option<nat>, n: nat, p: nat)
    requires p <= n && Advances(at, n)
    ensures Scan(at, n, p) == [] <==> forall i :: p <= i < n ==> at(i).None?
    decreases n - p
  {
    if p < n {
      ScanEmpty(at, n, p + 1);
    }
  }

  /** The search skips no match: a position where the matcher accepts lies inside a span found,
      either as its start or within an earlier match that the search took instead. */
  lemma {:induction false} ScanCovers(at: nat -> Option<nat>, n: nat, p: nat, q: nat) returns (k: nat)
    requires p <= q < n && Advances(at, n) && at(q).Some?
    ensures k < |Scan(at, n, p)| && Scan(at, n, p)[k].0 <= q < Scan(at, n, p)[k].1
    decreases n - p
  {
    var r := Scan(at, n, p);
    if at(p).None? {
      k := ScanCovers(at, n, p + 1, q);
    } else {
      var e := at(p).value;
      if q < e {
        k := 0;
      } else {
        var k' := ScanCovers(at, n, e, q);
        k := k' + 1;
        assert r[k] == Scan(at, n, e)[k'];
      }
    }
  }

  /** The expression `pat` anchored at every position of `s`, and nowhere past its end. */
  function Attempt(pat: Pattern, s: string): nat -> Option<nat> {
    (p: nat) => if p < |s| then MatchAt(pat, s, p) else None
  }

  lemma AttemptAdvances(pat: Pattern, s: string)
    ensures Advances(Attempt(pat, s), |s|)
  {
    forall p: nat | p < |s| && Attempt(pat, s)(p).Some?
      ensures p < Attempt(pat, s)(p).value <= |s|
    {
      assert Attempt(pat, s)(p) == MatchAt(pat, s, p);
    }
  }

  /** The `[start, end)` positions of the matches a global search for `pat` from `p` finds. */
  function Spans(pat: Pattern, s: string, p: nat): (r: seq<(nat, nat)>)
    requires p <= |s|
    ensures forall k :: 0 <= k < |r| ==> p <= r[k].0 < r[k].1 <= |s|
    ensures forall k :: 0 <= k < |r| - 1 ==> r[k].1 <= r[k + 1].0
  {
    AttemptAdvances(pat, s);
    Scan(Attempt(pat, s), |s|, p)
  }

  /** Where nothing matches, the search moves on by one position. */
  lemma SpansSkip(pat: Pattern, s: string, p: nat)
    requires p < |s| && MatchAt(pat, s, p).None?
    ensures Spans(pat, s, p) == Spans(pat, s, p + 1)
  {
    AttemptAdvances(pat, s);
    assert Attempt(pat, s)(p) == MatchAt(pat, s, p);
  }

  /** After a match ending at `e`, the search resumes at `e`. */
  lemma SpansCons(pat: Pattern, s: string, p: nat, e: nat)
    requires p < |s| && MatchAt(pat, s, p) == Some(e)
    ensures Spans(pat, s, p) == [(p, e)] + Spans(pat, s, e)
  {
    AttemptAdvances(pat, s);
    assert Attempt(pat, s)(p) == MatchAt(pat, s, p);
  }

  /** Every span found is one the anchored matcher accepted at the span's start. */
  lemma SpanMatched(pat: Pattern, s: string, p: nat, k: nat)
    requires p <= |s| && k < |Spans(pat, s, p)|
    ensures Spans(pat, s, p)[k].0 < |s| && MatchAt(pat, s, Spans(pat, s, p)[k].0) == Some(Spans(pat, s, p)[k].1)
  {
    AttemptAdvances(pat, s);
    ScanMatched(Attempt(pat, s), |s|, p, k);
  }

  /** The expression matches at no position from `p` exactly when no piece of the text from
      `p` on is in its language. */
  lemma NoMatchAnywhereIff(pat: Pattern, s: string, p: nat)
    requires p <= |s|
    ensures (forall i :: p <= i < |s| ==> MatchAt(pat, s, i).None?)
        <==> (forall i, j :: p <= i < j <= |s| ==> !Shape(pat, s[i..j]))
  {
    if forall i :: p <= i < |s| ==> MatchAt(pat, s, i).None? {
      forall i, j | p <= i < j <= |s| ensures !Shape(pat, s[i..j]) {
        MatchAtNoneIff(pat, s, i);
      }
    } else {
      var i :| p <= i < |s| && MatchAt(pat, s, i).Some?;
      var e := MatchAt(pat, s, i).value;
      assert Shape(pat, s[i..e]);
    }
  }

  /** The search finds nothing exactly when the expression matches at no position, that is
      when no piece of the text is in the expression's language. */
  lemma SpansEmpty(pat: Pattern, s: string, p: nat)
    requires p <= |s|
    ensures Spans(pat, s, p) == [] <==> forall i :: p <= i < |s| ==> MatchAt(pat, s, i).None?
    ensures Spans(pat, s, p) == [] <==> forall i, j :: p <= i < j <= |s| ==> !Shape(pat, s[i..j])
  {
    AttemptAdvances(pat, s);
    ScanEmpty(Attempt(pat, s), |s|, p);
    assert forall i :: p <= i < |s| ==> Attempt(pat, s)(i) == MatchAt(pat, s, i);
    NoMatchAnywhereIff(pat, s, p);
  }

  /** Position `q` lies inside one of `spans`. */
  predicate Covered(spans: seq<(nat, nat)>, q: nat) {
    exists k :: 0 <= k < |spans| && spans[k].0 <= q < spans[k].1
  }

  /** The search skips no match: every position where the expression matches, that is where a
      piece of the text in its language starts, lies inside a span found (it starts one, or an
      earlier match that the search took overlaps it). */
  lemma SpansCoverEveryMatch(pat: Pattern, s: string, p: nat)
    requires p <= |s|
    ensures forall q :: p <= q < |s| && MatchAt(pat, s, q).Some? ==> Covered(Spans(pat, s, p), q)
    ensures forall q, e :: p <= q < e <= |s| && Shape(pat, s[q..e]) ==> Covered(Spans(pat, s, p), q)
  {
    AttemptAdvances(pat, s);
    var r := Spans(pat, s, p);
    forall q | p <= q < |s| && MatchAt(pat, s, q).Some?
      ensures Covered(r, q)
    {
      assert Attempt(pat, s)(q) == MatchAt(pat, s, q);
      var k := ScanCovers(Attempt(pat, s), |s|, p, q);
    }
    forall q, e | p <= q < e <= |s| && Shape(pat, s[q..e])
      ensures Covered(r, q)
    {
      MatchAtComplete(pat, s, q, e);
    }
  }

  /** The matched texts of `spans`. */
  function Substrings(s: string, spans: seq<(nat, nat)>): (r: seq<string>)
    requires forall k :: 0 <= k < |spans| ==> spans[k].0 <= spans[k].1 <= |s|
    ensures |r| == |spans|
    ensures forall k :: 0 <= k < |r| ==> r[k] == s[spans[k].0..spans[k].1]
  {
    if spans == [] then [] else [s[spans[0].0..spans[0].1]] + Substrings(s, spans[1..])
  }

  lemma SubstringsPair(s: string, a: (nat, nat), b: (nat, nat))
    requires a.0 <= a.1 <= |s| && b.0 <= b.1 <= |s|
    ensures Substrings(s, [a, b]) == [s[a.0..a.1], s[b.0..b.1]]
  {
    assert [a, b][1..] == [b];
  }

  /** `s.match(rx) || []` for the global expression `pat`. */
  function Matches(pat: Pattern, s: string): seq<string> {
    Substrings(s, Spans(pat, s, 0))
  }

  /** `[...new Set(s.match(rx) || [])]`. */
  function DistinctMatches(pat: Pattern, s: string): seq<string> {
    Dedup(Matches(pat, s))
  }

  // ---------------------------------------------------------------------------------------
  // What the global search promises.

  /** The `k`-th match is the text of the `k`-th span, which the anchored matcher accepted. */
  lemma MatchIsShapedPiece(pat: Pattern, s: string, k: nat)
    requires k < |Matches(pat, s)|
    ensures Shape(pat, Matches(pat, s)[k])
    ensures OccursAt(s, Matches(pat, s)[k], Spans(pat, s, 0)[k].0)
  {
    var spans := Spans(pat, s, 0);
    var i, e := spans[k].0, spans[k].1;
    SpanMatched(pat, s, 0, k);
    ShapeOfMatch(pat, s, i, e);
    var m := Matches(pat, s)[k];
    assert m == s[i..e];
    assert i + |m| == e;
  }

  lemma ShapeOfMatch(pat: Pattern, s: string, i: nat, e: nat)
    requires i < |s| && MatchAt(pat, s, i) == Some(e)
    ensures e <= |s| && Shape(pat, s[i..e])
  {
  }

  /** Every match is in the language of its expression and is a piece of the searched text. */
  lemma MatchesAreShapedPieces(pat: Pattern, s: string)
    ensures forall m :: m in Matches(pat, s) ==> Shape(pat, m)
    ensures forall m :: m in Matches(pat, s) ==> exists i :: 0 <= i <= |s| && OccursAt(s, m, i)
  {
    var r := Matches(pat, s);
    forall m | m in r
      ensures Shape(pat, m) && exists i :: 0 <= i <= |s| && OccursAt(s, m, i)
    {
      var k :| 0 <= k < |r| && r[k] == m;
      MatchIsShapedPiece(pat, s, k);
      assert OccursAt(s, m, Spans(pat, s, 0)[k].0);
    }
  }

  /** `s.match(rx) || []` is `[]` exactly when `s` contains no match; after dedup the same. */
  lemma NoMatchNoResult(pat: Pattern, s: string)
    ensures Matches(pat, s) == [] <==> forall i :: 0 <= i < |s| ==> MatchAt(pat, s, i).None?
    ensures Matches(pat, s) == [] <==> forall i, j :: 0 <= i < j <= |s| ==> !Shape(pat, s[i..j])
    ensures DistinctMatches(pat, s) == [] <==> Matches(pat, s) == []
  {
    SpansEmpty(pat, s, 0);
    var m := Matches(pat, s);
    if m != [] {
      DedupMembers(m);
      assert m[0] in Dedup(m);
    }
  }

  /** The deduplicated matches: each distinct match once, from the text, in the language of
      the expression, in order of first occurrence among the matches. */
  lemma DistinctMatchesSpec(pat: Pattern, s: string)
    ensures NoDuplicates(DistinctMatches(pat, s))
    ensures forall m :: m in DistinctMatches(pat, s) <==> m in Matches(pat, s)
    ensures forall m :: m in DistinctMatches(pat, s) ==> Shape(pat, m)
    ensures forall m :: m in DistinctMatches(pat, s) ==> exists i :: 0 <= i <= |s| && OccursAt(s, m, i)
    ensures IsSubsequence(DistinctMatches(pat, s), Matches(pat, s))
    ensures forall i, j :: 0 <= i < j < |DistinctMatches(pat, s)| ==>
              IndexOf(Matches(pat, s), DistinctMatches(pat, s)[i]) < IndexOf(Matches(pat, s), DistinctMatches(pat, s)[j])
  {
    DedupSpec(Matches(pat, s));
    MatchesAreShapedPieces(pat, s);
  }

  /** A phone match is at least nine characters long, not counting a leading `+`. */
  lemma PhoneMatchLength(s: string)
    ensures forall m :: m in Matches(Phone, s) ==> |m| >= 9 && (m[0] == '+' ==> |m| >= 10)
  {
    MatchesAreShapedPieces(Phone, s);
  }
}
