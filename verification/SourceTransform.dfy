/** `tzslc::transform` with the sampler pattern and replacement of `preprocess_samplers`. */
module SourceTransform {
  import opened Words

  const KEY: string := "tz_sampler2D_uniform("

  // ----- the pattern: the key, at least one digit, a closing parenthesis

  predicate IsDigit(c: char)
  {
    '0' <= c <= '9'
  }

  /** The first place from `q` on that holds no digit. */
  function DigitEnd(s: string, q: nat): (e: nat)
    requires q <= |s|
    ensures q <= e <= |s| && (e < |s| ==> !IsDigit(s[e])) && forall i :: q <= i < e ==> IsDigit(s[i])
    decreases |s| - q
  {
    if q < |s| && IsDigit(s[q]) then DigitEnd(s, q + 1) else q
  }

  predicate HasKey(s: string, p: nat)
  {
    p + |KEY| <= |s| && s[p..p + |KEY|] == KEY
  }

  /** A match starts at `p`. */
  predicate Matches(s: string, p: nat)
  {
    HasKey(s, p)
    && var e := DigitEnd(s, p + |KEY|); p + |KEY| < e < |s| && s[e] == ')'
  }

  /** The end of the match at `p`. */
  function MatchEnd(s: string, p: nat): (e: nat)
    requires Matches(s, p)
    ensures p + |KEY| + 1 < e <= |s|
  {
    DigitEnd(s, p + |KEY|) + 1
  }

  /** The number in the match at `p`. */
  function Number(s: string, p: nat): (r: string)
    requires Matches(s, p)
    ensures forall i :: 0 <= i < |r| ==> IsDigit(r[i])
  {
    s[p + |KEY|..MatchEnd(s, p) - 1]
  }

  /** `std::regex_search`: the leftmost match from `p` on, or the length. */
  function Search(s: string, p: nat): (r: nat)
    requires p <= |s|
    ensures p <= r <= |s| && (r < |s| ==> Matches(s, r)) && forall i :: p <= i < r ==> !Matches(s, i)
    decreases |s| - p
  {
    if p == |s| then p else if Matches(s, p) then p else Search(s, p + 1)
  }

  ghost predicate NoMatch(s: string)
  {
    forall i: nat :: i < |s| ==> !Matches(s, i)
  }

  // ----- the replacement

  datatype Backend = Vulkan | OpenGL

  function Digit(d: nat): char
    requires d < 10
  {
    '0' + d as char
  }

  function Decimal(n: nat): (s: string)
    ensures |s| > 0 && forall i :: 0 <= i < |s| ==> IsDigit(s[i])
  {
    if n < 10 then [Digit(n)] else Decimal(n / 10) + [Digit(n % 10)]
  }

  /** `std::stoi` of a string of digits, without its limit. */
  function Value(s: string): nat
    requires forall i :: 0 <= i < |s| ==> IsDigit(s[i])
  {
    if s == [] then 0
    else
      var c := s[|s| - 1];
      assert IsDigit(c);
      10 * Value(s[..|s| - 1]) + (c - '0') as nat
  }

  lemma DigitChars(d: nat)
    requires d < 10
    ensures Digit(d) == "0123456789"[d]
  {
  }

  lemma ValueLast(s: string, d: nat)
    requires (forall i :: 0 <= i < |s| ==> IsDigit(s[i])) && d < 10
    ensures forall i :: 0 <= i < |s + [Digit(d)]| ==> IsDigit((s + [Digit(d)])[i])
    ensures Value(s + [Digit(d)]) == 10 * Value(s) + d
  {
    var t := s + [Digit(d)];
    assert t[..|t| - 1] == s && t[|t| - 1] == Digit(d);
  }

  /** The digits of a number are read as the number. */
  lemma {:induction false} ValueDecimal(n: nat)
    ensures Value(Decimal(n)) == n
  {
    hide Value, Digit;
    if n < 10 {
      ValueLast([], n);
      assert [] + [Digit(n)] == [Digit(n)];
      ValueNone();
    } else {
      ValueDecimal(n / 10);
      ValueLast(Decimal(n / 10), n % 10);
    }
  }

  lemma ValueNone()
    ensures Value([]) == 0
  {
  }

  /** A string of digits without its leading zeros; one digit stays. */
  function Stripped(s: string): string
  {
    if |s| > 1 && s[0] == '0' then Stripped(s[1..]) else s
  }

  lemma {:induction false} ZeroFirst(s: string)
    requires s != [] && s[0] == '0' && forall i :: 0 <= i < |s| ==> IsDigit(s[i])
    ensures Value(s) == Value(s[1..])
    decreases |s|
  {
    if |s| > 1 {
      var t := s[..|s| - 1];
      ZeroFirst(t);
      assert s[1..][..|s| - 2] == t[1..] && s[1..][|s| - 2] == s[|s| - 1];
    }
  }

  lemma {:induction false} ValuePositive(s: string)
    requires s != [] && s[0] != '0' && forall i :: 0 <= i < |s| ==> IsDigit(s[i])
    ensures Value(s) > 0
    decreases |s|
  {
    assert IsDigit(s[0]);
    if |s| > 1 {
      ValuePositive(s[..|s| - 1]);
    }
  }

  /** Read and written again, digits lose their leading zeros and nothing else. */
  lemma {:induction false} DecimalValue(s: string)
    requires s != [] && forall i :: 0 <= i < |s| ==> IsDigit(s[i])
    ensures Decimal(Value(s)) == Stripped(s)
    decreases |s|
  {
    if |s| > 1 && s[0] == '0' {
      ZeroFirst(s);
      DecimalValue(s[1..]);
    } else {
      hide Value, Decimal;
      var t, c := s[..|s| - 1], s[|s| - 1];
      assert IsDigit(c);
      var d := (c - '0') as nat;
      assert s == t + [Digit(d)];
      ValueLast(t, d);
      if t == [] {
        ValueNone();
        DecimalDigit(d);
      } else {
        ValuePositive(t);
        DecimalValue(t);
        assert Stripped(t) == t;
        DecimalMore(Value(t), d);
      }
    }
  }

  lemma DecimalDigit(d: nat)
    requires d < 10
    ensures Decimal(d) == [Digit(d)]
  {
  }

  lemma DecimalMore(n: nat, d: nat)
    requires n > 0 && d < 10
    ensures Decimal(10 * n + d) == Decimal(n) + [Digit(d)]
  {
  }

  /** The number of the match at `p`. */
  function Id(s: string, p: nat): nat
    requires Matches(s, p)
  {
    Value(Number(s, p))
  }

  function Opening(b: Backend): string
  {
    if b.Vulkan? then "/*tzslc*/ layout(binding = " else "/*tzslc*/ layout(location = "
  }

  const CLOSING: string := ") uniform sampler2D"

  function Replacement(b: Backend, id: nat): string
  {
    Opening(b) + Decimal(id) + CLOSING
  }

  /** A replacement holds the digits of its match without leading zeros, so exactly the digits of the
      match if there are none. */
  lemma KeepsNumber(b: Backend, s: string, p: nat)
    requires Matches(s, p)
    ensures Replacement(b, Id(s, p)) == Opening(b) + Stripped(Number(s, p)) + CLOSING
    ensures Replacement(b, Id(s, p)) == Opening(b) + Number(s, p) + CLOSING
       <==> |Number(s, p)| == 1 || Number(s, p)[0] != '0'
  {
    hide Value, Decimal, HasKey, DigitEnd;
    var n := Number(s, p);
    DecimalValue(n);
    StrippedIff(n);
    var o := Opening(b);
    if o + Stripped(n) + CLOSING == o + n + CLOSING {
      assert |Stripped(n)| == |n|;
    }
  }

  lemma {:induction false} StrippedIff(s: string)
    requires s != []
    ensures if |s| == 1 || s[0] != '0' then Stripped(s) == s else |Stripped(s)| < |s|
    decreases |s|
  {
    if |s| > 1 && s[0] == '0' {
      StrippedIff(s[1..]);
    }
  }

  // ----- left to right

  datatype Text = Text(s: string) | Thrown

  function Before(s: string, t: Text): Text
  {
    if t.Text? then Text(s + t.s) else Thrown
  }

  /** Every match replaced, from left to right; a number that does not fit throws. */
  function ReplaceAll(b: Backend, s: string): Text
    decreases |s|
  {
    var p := Search(s, 0);
    if p == |s| then Text(s)
    else if Id(s, p) > INT_MAX then Thrown
    else Before(s[..p] + Replacement(b, Id(s, p)), ReplaceAll(b, s[MatchEnd(s, p)..]))
  }

  // ----- a match is local

  /** Digits end in the same place in a part of the text that holds the end. */
  lemma {:induction false} DigitEndLocal(s: string, a: nat, b: nat, q: nat)
    requires a <= q <= b <= |s|
    ensures var e, e1 := DigitEnd(s, q), DigitEnd(s[a..b], q - a);
            (e < b ==> e1 == e - a) && (e1 < b - a ==> e == e1 + a)
    decreases b - q
  {
    if q < b {
      assert s[a..b][q - a] == s[q];
      if IsDigit(s[q]) {
        DigitEndLocal(s, a, b, q + 1);
      }
    }
  }

  lemma SubSlice(s: string, a: nat, b: nat, c: nat, d: nat)
    requires a <= c <= d <= b <= |s|
    ensures s[a..b][c - a..d - a] == s[c..d]
  {
    var x, y := s[a..b][c - a..d - a], s[c..d];
    assert |x| == |y| && forall k :: 0 <= k < |x| ==> x[k] == y[k];
  }

  /** A match that lies within a part of the text is a match of the part, and back. */
  lemma MatchLocal(s: string, a: nat, b: nat, p: nat)
    requires a <= p <= b <= |s|
    ensures Matches(s[a..b], p - a) ==> Matches(s, p) && MatchEnd(s, p) == MatchEnd(s[a..b], p - a) + a
    ensures Matches(s, p) && MatchEnd(s, p) <= b ==> Matches(s[a..b], p - a)
  {
    hide DigitEnd;
    if p + |KEY| <= b {
      SubSlice(s, a, b, p, p + |KEY|);
      DigitEndLocal(s, a, b, p + |KEY|);
    }
  }

  /** No character of a match is a slash or ends a line. */
  lemma NoBreak(s: string, p: nat, i: nat)
    requires Matches(s, p) && p <= i < MatchEnd(s, p)
    ensures s[i] != '/' && s[i] != '\n'
  {
    if i < p + |KEY| {
      assert s[p..p + |KEY|][i - p] == s[i] == KEY[i - p];
    }
  }

  lemma KeyStart(s: string, p: nat)
    requires Matches(s, p)
    ensures p + 2 < |s| && s[p] == 't' && s[p + 1] == 'z' && s[p + 2] == '_'
  {
    var k := s[p..p + |KEY|];
    assert k[0] == s[p] && k[1] == s[p + 1] && k[2] == s[p + 2];
  }

  /** No match starts in a replacement, whatever follows it. */
  lemma NoStart(b: Backend, id: nat, after: string, i: nat)
    requires i < |Replacement(b, id)|
    ensures !Matches(Replacement(b, id) + after, i)
  {
    hide Matches;
    NotTz(b, id, after, i);
    if Matches(Replacement(b, id) + after, i) {
      KeyStart(Replacement(b, id) + after, i);
    }
  }

  lemma NotTz(b: Backend, id: nat, after: string, i: nat)
    requires i < |Replacement(b, id)|
    ensures var t := Replacement(b, id) + after;
            i + 2 < |t| ==> !(t[i] == 't' && t[i + 1] == 'z' && t[i + 2] == '_')
  {
    hide Decimal;
    var o, d := Opening(b), Decimal(id);
    var t := Replacement(b, id) + after;
    if i + 2 < |t| {
      if i < |o| {
        assert t[..|o|] == o && t[|o|] == d[0];
        OpeningStart(b, t, i);
      } else if i < |o| + |d| {
        assert t[i] == d[i - |o|];
      } else {
        assert t[i] == CLOSING[i - |o| - |d|];
      }
    }
  }

  /** In the opening, "tz" is followed by an "s". */
  lemma OpeningStart(b: Backend, t: string, i: nat)
    requires |t| > |Opening(b)| && t[..|Opening(b)|] == Opening(b) && IsDigit(t[|Opening(b)|]) && i < |Opening(b)|
    requires i + 2 < |t|
    ensures !(t[i] == 't' && t[i + 1] == 'z' && t[i + 2] == '_')
  {
    var o := Opening(b);
    assert forall k :: 0 <= k < |o| ==> t[k] == o[k];
    assert o[3] == 'z' && o[4] == 's';
  }

  /** Nothing matches across the seams of a replacement. */
  lemma Seams(b: Backend, pre: string, id: nat, post: string)
    requires NoMatch(pre) && NoMatch(post)
    ensures NoMatch(pre + Replacement(b, id) + post)
  {
    var r := Replacement(b, id);
    SlashFirst(b, id);
    hide Matches, Replacement;
    var t := pre + r + post;
    forall i: nat | i < |t| ensures !Matches(t, i) {
      if i < |pre| {
        assert t[0..|pre|] == pre && t[|pre|] == r[0];
        NotBefore(t, |pre|, i);
      } else if i < |pre| + |r| {
        MatchLocal(t, |pre|, |t|, i);
        assert t[|pre|..|t|] == r + post;
        NoStart(b, id, post, i - |pre|);
        EndInside(t, i);
      } else {
        MatchLocal(t, |pre| + |r|, |t|, i);
        assert t[|pre| + |r|..|t|] == post;
        EndInside(t, i);
      }
    }
  }

  lemma SlashFirst(b: Backend, id: nat)
    ensures |Replacement(b, id)| > 0 && Replacement(b, id)[0] == '/'
  {
  }

  lemma EndInside(t: string, i: nat)
    ensures Matches(t, i) ==> MatchEnd(t, i) <= |t|
  {
  }

  /** A match before a slash ends before it. */
  lemma NotBefore(t: string, n: nat, i: nat)
    requires i < n < |t| && t[n] == '/' && NoMatch(t[0..n])
    ensures !Matches(t, i)
  {
    hide Matches;
    if Matches(t, i) {
      if MatchEnd(t, i) > n {
        NoBreak(t, i, n);
      } else {
        MatchLocal(t, 0, n, i);
      }
    }
  }

  /** After the replacements no match remains. */
  lemma {:induction false} NothingLeft(b: Backend, s: string)
    ensures ReplaceAll(b, s).Text? ==> NoMatch(ReplaceAll(b, s).s)
    decreases |s|
  {
    hide Matches, Replacement;
    var p := Search(s, 0);
    if p < |s| && Id(s, p) <= INT_MAX {
      var rest := s[MatchEnd(s, p)..];
      NothingLeft(b, rest);
      if ReplaceAll(b, rest).Text? {
        PrefixClean(s, p);
        Seams(b, s[..p], Id(s, p), ReplaceAll(b, rest).s);
      }
    }
  }

  lemma PrefixClean(s: string, p: nat)
    requires p <= |s| && forall i :: 0 <= i < p ==> !Matches(s, i)
    ensures NoMatch(s[..p])
  {
    hide Matches;
    forall i: nat | i < p ensures !Matches(s[..p], i) {
      assert s[0..p] == s[..p];
      MatchLocal(s, 0, p, i);
    }
  }

  // ----- the jobs

  /** Replace `len` characters from `pos` on. */
  datatype Job = Job(pos: nat, len: nat, text: string)

  /** `std::string::find`: the first place where `t` occurs, or the length. */
  function Find(s: string, t: string, p: nat): (r: nat)
    requires p <= |s|
    ensures p <= r <= |s|
    decreases |s| - p
  {
    if p + |t| <= |s| && s[p..p + |t|] == t then p
    else if p == |s| then p
    else Find(s, t, p + 1)
  }

  /** `t` occurs in `s` at `p`. */
  ghost predicate Occurs(s: string, t: string, p: nat)
  {
    p + |t| <= |s| && s[p..p + |t|] == t
  }

  datatype Jobs = Jobs(list: seq<Job>) | Failed

  function Cons(j: Job, r: Jobs): Jobs
  {
    if r.Jobs? then Jobs([j] + r.list) else Failed
  }

  /** The spans of the matches of a text that starts at `base`, from left to right. */
  function TrueJobs(b: Backend, s: string, base: nat): Jobs
    decreases |s|
  {
    var p := Search(s, 0);
    if p == |s| then Jobs([])
    else if Id(s, p) > INT_MAX then Failed
    else
      var e := MatchEnd(s, p);
      Cons(Job(base + p, e - p, Replacement(b, Id(s, p))), TrueJobs(b, s[e..], base + e))
  }

  /** The jobs as the loop collects them: the offset of what is left is looked up in the source. */
  function FoundJobs(b: Backend, source: string, copy: string, counter: nat): Jobs
    decreases |copy|
  {
    var p := Search(copy, 0);
    if p == |copy| then Jobs([])
    else if Id(copy, p) > INT_MAX then Failed
    else
      var e := MatchEnd(copy, p);
      Cons(Job(counter + p, e - p, Replacement(b, Id(copy, p))),
           FoundJobs(b, source, copy[e..], Find(source, copy[e..], 0)))
  }

  predicate HasMatch(s: string)
  {
    Search(s, 0) < |s|
  }

  /** Every rest that still holds a match first occurs in the source where it really is. */
  predicate FirstOccurrences(source: string, copy: string)
    decreases |copy|
  {
    var p := Search(copy, 0);
    p < |copy| ==>
      var rest := copy[MatchEnd(copy, p)..];
      && (HasMatch(rest) ==> |rest| <= |source| && Find(source, rest, 0) == |source| - |rest|)
      && FirstOccurrences(source, rest)
  }

  /** The numbers of all matches fit. */
  predicate NumbersFit(s: string)
    decreases |s|
  {
    var p := Search(s, 0);
    p < |s| ==> Id(s, p) <= INT_MAX && NumbersFit(s[MatchEnd(s, p)..])
  }

  lemma {:induction false} JobsFit(b: Backend, source: string, copy: string, counter: nat, base: nat)
    ensures FoundJobs(b, source, copy, counter).Jobs? <==> NumbersFit(copy)
    ensures TrueJobs(b, copy, base).Jobs? <==> NumbersFit(copy)
    ensures ReplaceAll(b, copy).Text? <==> NumbersFit(copy)
    decreases |copy|
  {
    hide Matches, Search, Replacement, Id, MatchEnd;
    var p := Search(copy, 0);
    if p < |copy| && Id(copy, p) <= INT_MAX {
      var e := MatchEnd(copy, p);
      JobsFit(b, source, copy[e..], Find(source, copy[e..], 0), base + e);
    }
  }

  /** The loop collects the true spans exactly when every rest first occurs where it is. */
  lemma {:induction false} SpansIff(b: Backend, source: string, copy: string, counter: nat)
    requires |copy| <= |source| && NumbersFit(copy) && (HasMatch(copy) ==> counter == |source| - |copy|)
    ensures FoundJobs(b, source, copy, counter) == TrueJobs(b, copy, |source| - |copy|) <==>
            FirstOccurrences(source, copy)
    decreases |copy|
  {
    hide Matches, Search, Replacement, Id, Find, MatchEnd;
    var p := Search(copy, 0);
    if p < |copy| {
      var e := MatchEnd(copy, p);
      var rest := copy[e..];
      var found := Find(source, rest, 0);
      JobsFit(b, source, rest, found, |source| - |rest|);
      if HasMatch(rest) && found != |source| - |rest| {
        DifferentStart(b, source, rest, found);
      } else {
        SpansIff(b, source, rest, found);
      }
      SameTail(Job(counter + p, e - p, Replacement(b, Id(copy, p))),
               FoundJobs(b, source, rest, found), TrueJobs(b, rest, |source| - |rest|));
    }
  }

  lemma SameTail(j: Job, a: Jobs, c: Jobs)
    ensures Cons(j, a) == Cons(j, c) <==> a == c
  {
    if a.Jobs? && c.Jobs? {
      assert ([j] + a.list)[1..] == a.list && ([j] + c.list)[1..] == c.list;
    }
  }

  lemma DifferentStart(b: Backend, source: string, rest: string, found: nat)
    requires HasMatch(rest) && |rest| <= |source| && found != |source| - |rest| && NumbersFit(rest)
    ensures FoundJobs(b, source, rest, found) != TrueJobs(b, rest, |source| - |rest|)
  {
    hide Matches, Search, Replacement, Id, Find, MatchEnd;
    var p := Search(rest, 0);
    var e := MatchEnd(rest, p);
    JobsFit(b, source, rest[e..], Find(source, rest[e..], 0), |source| - |rest| + e);
    var x, y := FoundJobs(b, source, rest, found), TrueJobs(b, rest, |source| - |rest|);
    assert x.list[0].pos == found + p && y.list[0].pos == |source| - |rest| + p;
  }

  /** Increasing, disjoint spans of matches from `from` on. */
  ghost predicate Spans(source: string, jobs: seq<Job>, from: nat)
    decreases |jobs|
  {
    jobs != [] ==>
      && from <= jobs[0].pos && Matches(source, jobs[0].pos)
      && jobs[0].pos + jobs[0].len == MatchEnd(source, jobs[0].pos)
      && Spans(source, jobs[1..], jobs[0].pos + jobs[0].len)
  }

  lemma {:induction false} TrueSpans(b: Backend, source: string, base: nat)
    requires base <= |source| && NumbersFit(source[base..])
    ensures TrueJobs(b, source[base..], base).Jobs? && Spans(source, TrueJobs(b, source[base..], base).list, base)
    decreases |source| - base
  {
    hide Matches, MatchEnd, Search, Replacement, Id, TrueJobs, ReplaceAll, NumbersFit, Spans;
    var copy := source[base..];
    JobsFit(b, source, copy, 0, base);
    OneMatch(b, copy, base);
    if HasMatch(copy) {
      var p := Search(copy, 0);
      var e := MatchEnd(copy, p);
      assert copy == source[base..|source|];
      MatchLocal(source, base, |source|, base + p);
      assert copy[e..] == source[base + e..];
      TrueSpans(b, source, base + e);
      var j := Job(base + p, e - p, Replacement(b, Id(copy, p)));
      OneMoreSpan(source, j, TrueJobs(b, copy[e..], base + e).list, base);
    } else {
      NoSpan(source, base);
    }
  }

  lemma NoSpan(source: string, from: nat)
    ensures Spans(source, [], from)
  {
  }

  lemma OneMoreSpan(source: string, j: Job, tail: seq<Job>, from: nat)
    requires from <= j.pos && Matches(source, j.pos) && j.pos + j.len == MatchEnd(source, j.pos)
    requires Spans(source, tail, j.pos + j.len)
    ensures Spans(source, [j] + tail, from)
  {
    hide Matches, MatchEnd;
    assert ([j] + tail)[1..] == tail;
  }

  // ----- splicing from the last job to the first

  /** `std::string::replace`: out of range throws, a length past the end is cut. */
  function Splice(t: Text, j: Job): Text
  {
    if t.Thrown? || j.pos > |t.s| then Thrown
    else Text(t.s[..j.pos] + j.text + t.s[if j.pos + j.len <= |t.s| then j.pos + j.len else |t.s|..])
  }

  /** The last job first. */
  function SpliceAll(source: string, jobs: seq<Job>): Text
  {
    if jobs == [] then Text(source) else Splice(SpliceAll(source, jobs[1..]), jobs[0])
  }

  /** On the true spans, splicing backwards is replacing forwards. */
  lemma {:induction false} SpliceIsReplace(b: Backend, source: string, base: nat)
    requires base <= |source| && NumbersFit(source[base..])
    ensures TrueJobs(b, source[base..], base).Jobs?
    ensures SpliceAll(source, TrueJobs(b, source[base..], base).list)
            == Before(source[..base], ReplaceAll(b, source[base..]))
    decreases |source| - base
  {
    hide Matches, Search, Replacement, Id, MatchEnd, TrueJobs, ReplaceAll, NumbersFit, SpliceAll;
    var copy := source[base..];
    JobsFit(b, source, copy, 0, base);
    OneMatch(b, copy, base);
    if HasMatch(copy) {
      var p := Search(copy, 0);
      var e := MatchEnd(copy, p);
      assert copy[e..] == source[base + e..];
      SpliceIsReplace(b, source, base + e);
      var tail := TrueJobs(b, copy[e..], base + e).list;
      SpliceFirst(source, base, p, e, Replacement(b, Id(copy, p)), tail, ReplaceAll(b, copy[e..]));
    } else {
      NoSplice(source);
      assert source[..base] + copy == source;
    }
  }

  lemma NoSplice(source: string)
    ensures SpliceAll(source, []) == Text(source)
  {
  }

  /** The first match and the rest. */
  lemma OneMatch(b: Backend, copy: string, base: nat)
    requires NumbersFit(copy)
    ensures !HasMatch(copy) ==> TrueJobs(b, copy, base) == Jobs([]) && ReplaceAll(b, copy) == Text(copy)
    ensures HasMatch(copy) ==>
              var p := Search(copy, 0); var e := MatchEnd(copy, p); var r := Replacement(b, Id(copy, p));
              && NumbersFit(copy[e..]) && ReplaceAll(b, copy) == Before(copy[..p] + r, ReplaceAll(b, copy[e..]))
              && TrueJobs(b, copy, base) == Cons(Job(base + p, e - p, r), TrueJobs(b, copy[e..], base + e))
  {
    hide Matches, Search, Replacement, Id, MatchEnd;
  }

  lemma SpliceFirst(source: string, base: nat, p: nat, e: nat, r: string, tail: seq<Job>, rest: Text)
    requires base + e <= |source| && p <= e && rest.Text?
    requires SpliceAll(source, tail) == Text(source[..base + e] + rest.s)
    ensures SpliceAll(source, [Job(base + p, e - p, r)] + tail)
            == Text(source[..base] + (source[base..][..p] + r + rest.s))
  {
    hide SpliceAll;
    var j := Job(base + p, e - p, r);
    SpliceOne(source, j, tail);
    var t := source[..base + e] + rest.s;
    assert t[..base + p] == source[..base] + source[base..][..p];
    assert t[base + e..] == rest.s;
    Regroup(source[..base], source[base..][..p], r, rest.s);
  }

  lemma Regroup(a: string, b: string, c: string, d: string)
    ensures a + b + c + d == a + (b + c + d)
  {
  }

  // ----- a wrong offset always shows

  /** The rest at `base` and all rests after it that hold a match are looked up where they are. */
  predicate LookedUp(source: string, base: nat, counter: nat)
    requires base <= |source|
  {
    (HasMatch(source[base..]) ==> counter == base) && FirstOccurrences(source, source[base..])
  }

  /** Counted from the end, character `d` of the text is `c`, and it lies at `base` or after. */
  predicate Mark(t: string, base: nat, d: nat, c: char)
  {
    base + d < |t| && t[|t| - 1 - d] == c
  }

  lemma {:induction false} FindAtMost(s: string, t: string, p: nat, q: nat)
    requires p <= q && Occurs(s, t, q)
    ensures Find(s, t, p) <= q
    decreases q - p
  {
    if p < q {
      FindAtMost(s, t, p + 1, q);
    }
  }

  /** A rest is never looked up behind its true offset. */
  lemma RestFound(source: string, q: nat)
    requires q <= |source|
    ensures Find(source, source[q..], 0) <= q
  {
    hide Find;
    var rest := source[q..];
    assert q + |rest| == |source| && source[q..q + |rest|] == rest;
    FindAtMost(source, rest, 0, q);
  }

  /** A match ends with a parenthesis, its replacement with a letter. */
  lemma LastCharacters(b: Backend, copy: string, p: nat)
    requires Matches(copy, p)
    ensures copy[MatchEnd(copy, p) - 1] == ')'
    ensures var r := Replacement(b, Id(copy, p)); |r| > 0 && r[|r| - 1] == 'D'
  {
  }

  lemma FoundOne(b: Backend, source: string, copy: string, counter: nat)
    requires HasMatch(copy) && NumbersFit(copy)
    ensures var p := Search(copy, 0); var e := MatchEnd(copy, p);
            NumbersFit(copy[e..])
            && FoundJobs(b, source, copy, counter)
            == Cons(Job(counter + p, e - p, Replacement(b, Id(copy, p))),
                    FoundJobs(b, source, copy[e..], Find(source, copy[e..], 0)))
  {
    hide Matches, MatchEnd, Id, Search, Find, Replacement, FoundJobs, Cons;
    FoundStep(b, source, copy, counter);
  }

  /** A splice that ends before the mark leaves it at its distance from the end. */
  lemma MarkKept(t: string, j: Job, base: nat, next: nat, d: nat, c: char)
    requires Mark(t, next, d, c) && j.pos + j.len <= next && base <= next - j.len + |j.text|
    ensures var u := Splice(Text(t), j); u.Text? && Mark(u.s, base, d, c)
  {
    var u := t[..j.pos] + j.text + t[j.pos + j.len..];
    assert Splice(Text(t), j) == Text(u);
    assert u[|u| - 1 - d] == t[|t| - 1 - d];
  }

  /** A mark in the last part of a text stays when the part before it changes. */
  lemma MarkInTail(a: string, x: string, y: string, base: nat, d: nat, c: char)
    requires Mark(a + x, |a|, d, c) && base <= |y|
    ensures Mark(y + x, base, d, c)
  {
    assert (a + x)[|a + x| - 1 - d] == x[|x| - 1 - d] == (y + x)[|y + x| - 1 - d];
  }

  /** The job of a rest looked up too early: the end of its match survives before what follows. */
  lemma EarlyJob(source: string, base: nat, counter: nat, p: nat, e: nat, r: string, x: string)
    requires base + e <= |source| && p < e && counter < base && source[base + e - 1] == ')'
    requires |r| > 0 && r[|r| - 1] == 'D'
    ensures var u := Splice(Text(source[..base + e] + x), Job(counter + p, e - p, r));
            u.Text? && Mark(u.s, base, |x|, ')')
    ensures Mark(source[..base] + (source[base..][..p] + r + x), base, |x|, 'D')
  {
    var t := source[..base + e] + x;
    assert t[|t| - 1 - |x|] == ')' && Mark(t, base + e - 1, |x|, ')');
    MarkKept(t, Job(counter + p, e - p, r), base, base + e - 1, |x|, ')');
    var y := source[..base] + (source[base..][..p] + r);
    assert source[..base] + (source[base..][..p] + r + x) == y + x;
    assert (y + x)[|y| - 1] == 'D';
  }

  /** Where a rest is looked up too early, the two texts differ in one character from the end. */
  lemma {:induction false} WrongShows(b: Backend, source: string, base: nat, counter: nat) returns (d: nat)
    requires counter <= base <= |source| && NumbersFit(source[base..]) && !LookedUp(source, base, counter)
    ensures FoundJobs(b, source, source[base..], counter).Jobs? && ReplaceAll(b, source[base..]).Text?
    ensures var u := SpliceAll(source, FoundJobs(b, source, source[base..], counter).list);
            u.Text? && Mark(u.s, base, d, ')')
    ensures Mark(source[..base] + ReplaceAll(b, source[base..]).s, base, d, 'D')
    decreases |source| - base
  {
    hide Matches, MatchEnd, Id, Search, Find, Replacement, FoundJobs, TrueJobs, ReplaceAll, NumbersFit, SpliceAll,
      Mark, Splice,
      LookedUp;
    var copy := source[base..];
    WrongRest(source, base, counter);
    var p := Search(copy, 0);
    var e := MatchEnd(copy, p);
    var next := base + e;
    var r, c := Replacement(b, Id(copy, p)), Find(source, source[next..], 0);
    assert copy[e..] == source[next..];
    JobsFit(b, source, copy, counter, base);
    FoundOne(b, source, copy, counter);
    OneMatch(b, copy, base);
    RestFound(source, next);
    LastCharacters(b, copy, p);
    JobsFit(b, source, source[next..], c, next);
    var tail, x := FoundJobs(b, source, source[next..], c).list, ReplaceAll(b, source[next..]).s;
    var j := Job(counter + p, e - p, r);
    SpliceOne(source, j, tail);
    if LookedUp(source, next, c) {
      RestExact(b, source, next, c);
      EarlyJob(source, base, counter, p, e, r, x);
      d := |x|;
    } else {
      d := WrongShows(b, source, next, c);
      var t := SpliceAll(source, tail).s;
      MarkKept(t, j, base, next, d, ')');
      MarkInTail(source[..next], x, source[..base] + (copy[..p] + r), base, d, 'D');
      assert source[..base] + (copy[..p] + r) + x == source[..base] + (copy[..p] + r + x);
    }
  }

  lemma SpliceOne(source: string, j: Job, tail: seq<Job>)
    ensures SpliceAll(source, [j] + tail) == Splice(SpliceAll(source, tail), j)
  {
    assert ([j] + tail)[1..] == tail;
  }

  /** A rest looked up wrong holds a match, and the fault is its own or a later rest's. */
  lemma WrongRest(source: string, base: nat, counter: nat)
    requires base <= |source| && !LookedUp(source, base, counter)
    ensures var copy := source[base..];
            HasMatch(copy)
            && var next := base + MatchEnd(copy, Search(copy, 0));
            LookedUp(source, next, Find(source, source[next..], 0)) ==> counter != base
  {
    hide Matches, Search, Find, MatchEnd;
    var copy := source[base..];
    var p := Search(copy, 0);
    if p < |copy| {
      assert copy[MatchEnd(copy, p)..] == source[base + MatchEnd(copy, p)..];
    }
  }

  /** From a rest that is looked up where it is, the splices are replacement from left to right. */
  lemma RestExact(b: Backend, source: string, base: nat, counter: nat)
    requires base <= |source| && NumbersFit(source[base..]) && LookedUp(source, base, counter)
    ensures FoundJobs(b, source, source[base..], counter).Jobs?
    ensures SpliceAll(source, FoundJobs(b, source, source[base..], counter).list)
            == Before(source[..base], ReplaceAll(b, source[base..]))
  {
    hide ReplaceAll, FoundJobs, TrueJobs, FirstOccurrences, SpliceAll, NumbersFit, HasMatch;
    SpansIff(b, source, source[base..], counter);
    SpliceIsReplace(b, source, base);
  }

  lemma OneMark(t: string, d: nat)
    ensures !(Mark(t, 0, d, ')') && Mark(t, 0, d, 'D'))
  {
  }

  /** The text that comes back is replacement from left to right exactly when every rest that still
      holds a match first occurs in the source where it is. */
  lemma TransformIff(b: Backend, source: string)
    requires NumbersFit(source)
    ensures FoundJobs(b, source, source, 0).Jobs?
    ensures SpliceAll(source, FoundJobs(b, source, source, 0).list) == ReplaceAll(b, source) <==>
            FirstOccurrences(source, source)
  {
    hide ReplaceAll, FoundJobs, SpliceAll, NumbersFit, FirstOccurrences, HasMatch, Mark;
    JobsFit(b, source, source, 0, 0);
    assert source[0..] == source && source[..0] == [];
    var all := ReplaceAll(b, source);
    assert [] + all.s == all.s;
    if LookedUp(source, 0, 0) {
      RestExact(b, source, 0, 0);
    } else {
      var d := WrongShows(b, source, 0, 0);
      OneMark(all.s, d);
    }
  }

  /** Where the transform replaces, it leaves nothing to do for a second run. */
  lemma SecondRun(b: Backend, s: string)
    requires NumbersFit(s) && FirstOccurrences(s, s)
    ensures FoundJobs(b, s, s, 0).Jobs?
    ensures var r := SpliceAll(s, FoundJobs(b, s, s, 0).list);
            r.Text? && !HasMatch(r.s) && FoundJobs(b, r.s, r.s, 0) == Jobs([]) && ReplaceAll(b, r.s) == r
  {
    hide Matches, SpliceAll;
    TransformIff(b, s);
    JobsFit(b, s, s, 0, 0);
    NothingLeft(b, s);
    var t := ReplaceAll(b, s).s;
    assert Search(t, 0) == |t|;
  }

  // ----- sources that fail

  lemma {:induction false} SearchFrom(t: string, a: nat, b: nat)
    requires a <= b <= |t| && forall i :: a <= i < b ==> !Matches(t, i)
    ensures Search(t, a) == Search(t, b)
    decreases b - a
  {
    hide Matches;
    if a < b {
      SearchFrom(t, a + 1, b);
    }
  }

  /** The search from `a` on finds the number `id` between `p` and `e`. */
  ghost predicate FoundAt(t: string, a: nat, p: nat, e: nat, id: nat)
  {
    a <= |t| && Search(t, a) == p < |t| && MatchEnd(t, p) == e && Id(t, p) == id
  }

  lemma {:induction false} SearchShift(t: string, a: nat, q: nat)
    requires a <= q <= |t|
    ensures Search(t[a..], q - a) + a == Search(t, q)
    decreases |t| - q
  {
    hide Matches;
    if q < |t| {
      assert t[a..] == t[a..|t|];
      MatchLocal(t, a, |t|, q);
      EndInside(t, q);
      SearchShift(t, a, q + 1);
    }
  }

  /** What the search sees of a rest. */
  lemma RestSearch(t: string, a: nat, p: nat, e: nat, id: nat)
    requires FoundAt(t, a, p, e, id)
    ensures a <= p < e <= |t| && FoundAt(t[a..], 0, p - a, e - a, id)
  {
    hide Matches, MatchEnd, Value, Search;
    assert t[a..] == t[a..|t|];
    SearchShift(t, a, a);
    MatchLocal(t, a, |t|, p);
    SubSlice(t, a, |t|, p + |KEY|, e - 1);
  }

  /** One round of the loop. */
  lemma NextRest(t: string, a: nat, p: nat, e: nat, id: nat)
    requires FoundAt(t, a, p, e, id)
    ensures e <= |t| && HasMatch(t[a..])
    ensures NumbersFit(t[a..]) <==> id <= INT_MAX && NumbersFit(t[e..])
    ensures FirstOccurrences(t, t[a..]) <==>
            (HasMatch(t[e..]) ==> Find(t, t[e..], 0) == e) && FirstOccurrences(t, t[e..])
  {
    hide *;
    RestSearch(t, a, p, e, id);
    var copy := t[a..];
    assert copy[e - a..] == t[e..] && |t[e..]| == |t| - e;
    FitStep(copy, p - a, e - a, id);
    FirstStep(t, copy, p - a, e - a, id);
  }

  lemma FitStep(copy: string, p: nat, e: nat, id: nat)
    requires FoundAt(copy, 0, p, e, id)
    ensures e <= |copy| && HasMatch(copy) && (NumbersFit(copy) <==> id <= INT_MAX && NumbersFit(copy[e..]))
  {
    hide Matches, MatchEnd, Id, Search;
  }

  lemma FirstStep(t: string, copy: string, p: nat, e: nat, id: nat)
    requires FoundAt(copy, 0, p, e, id) && e <= |copy| <= |t|
    ensures FirstOccurrences(t, copy) <==>
            (HasMatch(copy[e..]) ==> Find(t, copy[e..], 0) == |t| - (|copy| - e)) && FirstOccurrences(t, copy[e..])
  {
    hide Matches, MatchEnd, Id, Search, Find, HasMatch;
    var rest := copy[e..];
    assert |rest| == |copy| - e;
  }

  lemma LastRest(t: string, a: nat)
    requires a <= |t| && Search(t, a) == |t|
    ensures NumbersFit(t[a..]) && FirstOccurrences(t, t[a..])
  {
    hide Matches, MatchEnd, Id, Find;
    SearchShift(t, a, a);
  }

  lemma PairFound(s: string, t: string)
    requires t == s + s && Matches(s, 0) && MatchEnd(s, 0) == |s|
    ensures FoundAt(t, 0, 0, |s|, Id(s, 0)) && FoundAt(t, |s|, |s|, |s| + |s|, Id(s, 0))
    ensures Occurs(t, s, 0) && Search(t, |s| + |s|) == |t|
  {
    hide Matches, MatchEnd, Id, Search;
    SameMatch(t, s, 0, 0);
    SameMatch(t, s, |s|, 0);
    FoundHere(t, 0);
    FoundHere(t, |s|);
  }

  /** A match written twice in a row is spoilt: the second is looked up where the first is. */
  lemma AdjacentPair(b: Backend, s: string)
    requires Matches(s, 0) && MatchEnd(s, 0) == |s| && Id(s, 0) <= INT_MAX
    ensures var t := s + s;
            && NumbersFit(t) && !FirstOccurrences(t, t) && FoundJobs(b, t, t, 0).Jobs?
            && SpliceAll(t, FoundJobs(b, t, t, 0).list) != ReplaceAll(b, t)
  {
    hide *;
    var t, n := s + s, |s|;
    assert t[n..] == s && t[0..] == t;
    PairFound(s, t);
    NextRest(t, 0, 0, n, Id(s, 0));
    NextRest(t, n, n, n + n, Id(s, 0));
    LastRest(t, n + n);
    FindAtMost(t, s, 0, 0);
    TransformIff(b, t);
  }

  /** A match of a part of the text. */
  lemma SameMatch(t: string, s: string, a: nat, i: nat)
    requires Occurs(t, s, a) && i < |s| && Matches(s, i)
    ensures Matches(t, a + i) && MatchEnd(t, a + i) == a + MatchEnd(s, i) && Id(t, a + i) == Id(s, i)
  {
    hide Matches, MatchEnd, Value;
    MatchLocal(t, a, a + |s|, a + i);
    SubSlice(t, a, a + |s|, a + i + |KEY|, a + MatchEnd(s, i) - 1);
  }

  /** A line with the one match `id` between `p` and `e`. */
  ghost predicate SamplerLine(s: string, p: nat, e: nat, id: nat)
  {
    |s| > 0 && s[|s| - 1] == '\n' && FoundAt(s, 0, p, e, id) && e <= |s| && Search(s, e) == |s|
  }

  /** A match that starts in a line is a match of the line. */
  lemma InLine(t: string, s: string, a: nat, i: nat)
    requires Occurs(t, s, a) && i < |s| && s[|s| - 1] == '\n'
    ensures Matches(t, a + i) <==> Matches(s, i)
  {
    hide Matches, MatchEnd;
    MatchLocal(t, a, a + |s|, a + i);
    if Matches(t, a + i) && MatchEnd(t, a + i) > a + |s| {
      assert t[a + |s| - 1] == s[|s| - 1];
      NoBreak(t, a + i, a + |s| - 1);
    }
  }

  /** The search from the start of a line, and from behind its match. */
  lemma LineSearch(t: string, s: string, a: nat, p: nat, e: nat, id: nat)
    requires Occurs(t, s, a) && SamplerLine(s, p, e, id)
    ensures FoundAt(t, a, a + p, a + e, id) && Search(t, a + e) == Search(t, a + |s|)
  {
    hide Matches, MatchEnd, Id, Search;
    SameMatch(t, s, a, p);
    forall i | a <= i < a + |s| ensures Matches(t, i) <==> Matches(s, i - a) {
      InLine(t, s, a, i - a);
    }
    SearchFrom(t, a, a + p);
    SearchFrom(t, a + e, a + |s|);
    FoundHere(t, a + p);
  }

  lemma FoundHere(t: string, p: nat)
    requires Matches(t, p)
    ensures p < |t| && Search(t, p) == p
  {
    hide Matches;
    EndInside(t, p);
  }

  /** A line with one match written three times is spoilt: behind the second match, what is left
      occurs behind the first. */
  lemma RepeatedLine(b: Backend, s: string, p: nat, e: nat, id: nat)
    requires SamplerLine(s, p, e, id) && id <= INT_MAX
    ensures var t := s + s + s;
            && NumbersFit(t) && !FirstOccurrences(t, t) && FoundJobs(b, t, t, 0).Jobs?
            && SpliceAll(t, FoundJobs(b, t, t, 0).list) != ReplaceAll(b, t)
  {
    var t, n := s + s + s, |s|;
    hide *;
    MatchInLine(s, p, e, id);
    ThreeLines(s, t, e);
    ThreeFound(t, s, p, e, id);
    NextRest(t, 0, p, e, id);
    NextRest(t, e, n + p, n + e, id);
    NextRest(t, n + e, 2 * n + p, 2 * n + e, id);
    LastRest(t, 2 * n + e);
    FindAtMost(t, t[n + e..], 0, e);
    TransformIff(b, t);
  }

  lemma MatchInLine(s: string, p: nat, e: nat, id: nat)
    requires SamplerLine(s, p, e, id)
    ensures e <= |s| && |s| > 0
  {
  }

  lemma ThreeFound(t: string, s: string, p: nat, e: nat, id: nat)
    requires SamplerLine(s, p, e, id) && |t| == 3 * |s|
    requires Occurs(t, s, 0) && Occurs(t, s, |s|) && Occurs(t, s, 2 * |s|)
    ensures FoundAt(t, 0, p, e, id) && FoundAt(t, e, |s| + p, |s| + e, id)
    ensures FoundAt(t, |s| + e, 2 * |s| + p, 2 * |s| + e, id) && Search(t, 2 * |s| + e) == |t|
  {
    hide *;
    var n := |s|;
    MatchInLine(s, p, e, id);
    LineSearch(t, s, 0, p, e, id);
    LineSearch(t, s, n, p, e, id);
    LineSearch(t, s, 2 * n, p, e, id);
    FoundFrom(t, e, n, n + p, n + e, id);
    FoundFrom(t, n + e, 2 * n, 2 * n + p, 2 * n + e, id);
  }

  lemma FoundFrom(t: string, a: nat, next: nat, p: nat, e: nat, id: nat)
    requires a <= |t| && FoundAt(t, next, p, e, id) && Search(t, a) == Search(t, next)
    ensures FoundAt(t, a, p, e, id)
  {
    hide Matches, MatchEnd, Id, Search;
  }

  lemma ThreeLines(s: string, t: string, e: nat)
    requires t == s + s + s && e <= |s|
    ensures Occurs(t, s, 0) && Occurs(t, s, |s|) && Occurs(t, s, 2 * |s|) && t[0..] == t
    ensures Occurs(t, t[|s| + e..], e)
  {
  }

  /** Such a line. */
  lemma OneSamplerLine()
    ensures SamplerLine("tz_sampler2D_uniform(0) albedo;\n", 0, 23, 0)
  {
    var s := "tz_sampler2D_uniform(0) albedo;\n";
    assert s[0..|KEY|] == KEY;
    assert DigitEnd(s, |KEY|) == |KEY| + 1;
    assert Number(s, 0) == "0";
    assert forall i: nat :: 0 < i ==> !Matches(s, i);
  }

  // ----- the method

  /** `tzslc::transform`: whether anything was replaced, and the new source. */
  method Transform(b: Backend, source: string) returns (r: Text, did: bool)
    ensures !NumbersFit(source) ==> r.Thrown?
    ensures NumbersFit(source) ==> (r == ReplaceAll(b, source) <==> FirstOccurrences(source, source))
    ensures NumbersFit(source) ==> did == HasMatch(source)
    ensures NumbersFit(source) ==>
              FoundJobs(b, source, source, 0).Jobs? && r == SpliceAll(source, FoundJobs(b, source, source, 0).list)
  {
    hide Matches, Search, Replacement, Id, Find, MatchEnd, SpliceAll, ReplaceAll, FirstOccurrences, FoundJobs,
      NumbersFit,
      Prefixed, HasMatch;
    var copy, counter := source, 0;
    var jobs: seq<Job> := [];
    ghost var all := FoundJobs(b, source, source, 0);
    JobsFit(b, source, source, 0, 0);
    FoundStep(b, source, source, 0);
    PrefixedNone(all);
    while HasMatch(copy)
      invariant all == Prefixed(jobs, FoundJobs(b, source, copy, counter))
      decreases |copy|
    {
      FoundStep(b, source, copy, counter);
      var p := Search(copy, 0);
      var pos, len := p + counter, MatchEnd(copy, p) - p;
      var number := Id(copy, p);
      copy := copy[p + len..];
      counter := Find(source, copy, 0);
      if number > INT_MAX {
        return Thrown, false;
      }
      var job := Job(pos, len, Replacement(b, number));
      PrefixedMore(jobs, job, FoundJobs(b, source, copy, counter));
      jobs := jobs + [job];
    }
    FoundStep(b, source, copy, counter);
    did := jobs != [];
    r := SpliceBackwards(source, jobs);
    if NumbersFit(source) {
      TransformIff(b, source);
    }
  }

  lemma FoundStep(b: Backend, source: string, copy: string, counter: nat)
    ensures var found := FoundJobs(b, source, copy, counter);
            if HasMatch(copy) then
              var p := Search(copy, 0); var e := MatchEnd(copy, p);
              && (Id(copy, p) > INT_MAX ==> found == Failed)
              && (Id(copy, p) <= INT_MAX ==>
                    found == Cons(Job(counter + p, e - p, Replacement(b, Id(copy, p))),
                                  FoundJobs(b, source, copy[e..], Find(source, copy[e..], 0))))
              && (found.Jobs? ==> found.list != [])
            else found == Jobs([])
  {
    hide Matches, Search, Replacement, Id, Find, MatchEnd;
  }

  lemma PrefixedNone(r: Jobs)
    ensures Prefixed([], r) == r && forall a :: Prefixed(a, Jobs([])) == Jobs(a) && Prefixed(a, Failed) == Failed
  {
    forall a: seq<Job> ensures Prefixed(a, Jobs([])) == Jobs(a) {
      assert a + [] == a;
    }
    if r.Jobs? {
      assert [] + r.list == r.list;
    }
  }

  function Prefixed(a: seq<Job>, r: Jobs): Jobs
  {
    if r.Jobs? then Jobs(a + r.list) else Failed
  }

  lemma PrefixedMore(a: seq<Job>, j: Job, r: Jobs)
    ensures Prefixed(a, Cons(j, r)) == Prefixed(a + [j], r)
  {
    if r.Jobs? {
      assert a + ([j] + r.list) == a + [j] + r.list;
    }
  }

  method SpliceBackwards(source: string, jobs: seq<Job>) returns (r: Text)
    ensures r == SpliceAll(source, jobs)
  {
    r := Text(source);
    var i := |jobs|;
    assert jobs[|jobs|..] == [];
    while i > 0
      invariant 0 <= i <= |jobs| && r == SpliceAll(source, jobs[i..])
    {
      i := i - 1;
      assert jobs[i..][1..] == jobs[i + 1..];
      r := Splice(r, jobs[i]);
    }
    assert jobs[0..] == jobs;
  }
}
