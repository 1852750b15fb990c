/** A hand-written matcher for the one regular expression that extracts legal bases from the
    register's `lawful_basis_grouping` text:

        \d+: (.+?), (https:\/\/\S+)(?:\.|$)

    with the leftmost-first semantics of the `regex` crate and the non-overlapping, left to
    right iteration of `captures_iter`. A match at start `i` is described by three positions:
    `a`, the end of the digits; `b`, the end of the lazily matched name; `c`, the end of the
    greedily matched link. `PatternAt` says which positions match at all; `Preferred` says
    which of them the engine reports; `Find` and `Captures` compute them. */
module LegalBasisPattern {
  import opened Options

  /** `\d` (taken as the ASCII digits). */
  predicate IsDigit(c: char) { '0' <= c <= '9' }

  /** `\s`: the characters with the Unicode White_Space property. `\S` is its complement. */
  predicate IsSpace(c: char) {
    || ('\t' <= c <= '\r') || c == ' ' || c == '\U{0085}' || c == '\U{00A0}' || c == '\U{1680}'
    || ('\U{2000}' <= c <= '\U{200A}') || c == '\U{2028}' || c == '\U{2029}' || c == '\U{202F}'
    || c == '\U{205F}' || c == '\U{3000}'
  }

  /** The literal text between the name and the rest of the link: `, ` then `https://`. */
  const LinkIntro: string := ", https://"

  /** `(.+?)` may stand for the characters `s[ns..b]`: at least one, none a newline. */
  predicate NameMatch(s: string, ns: nat, b: nat)
  {
    ns < b <= |s| && forall k :: ns <= k < b ==> s[k] != '\n'
  }

  /** `, (https:\/\/\S+)(?:\.|$)` matches from `b` with the link group ending at `c`. */
  predicate LinkMatch(s: string, b: nat, c: nat)
  {
    && b + |LinkIntro| < c <= |s|
    && s[b..b + |LinkIntro|] == LinkIntro
    && (forall k :: b + |LinkIntro| <= k < c ==> !IsSpace(s[k]))
    && (c == |s| || s[c] == '.')
  }

  /** The whole pattern matches from `i`, with digits `s[i..a]`, name `s[a+2..b]` and link
      `s[b+2..c]`. */
  predicate PatternAt(s: string, i: nat, a: nat, b: nat, c: nat)
  {
    && i < a && a + 2 <= |s|
    && (forall k :: i <= k < a ==> IsDigit(s[k]))
    && s[a] == ':' && s[a + 1] == ' '
    && NameMatch(s, a + 2, b)
    && LinkMatch(s, b, c)
  }

  /** A reported match: where it starts and the three group boundaries. */
  datatype Capture = Capture(start: nat, digitsEnd: nat, nameEnd: nat, linkEnd: nat)

  /** The group boundaries of `cap` are in order and inside `s`. */
  predicate Fits(s: string, cap: Capture)
  {
    cap.start < cap.digitsEnd && cap.digitsEnd + 2 < cap.nameEnd
    && cap.nameEnd + |LinkIntro| < cap.linkEnd <= |s|
  }

  /** The match the engine reports at `cap.start`: among all matches there, the digits run is
      the only one possible, the name is the shortest (lazy `.+?`), and for that name the link
      is the longest (greedy `\S+`). */
  ghost predicate Preferred(s: string, cap: Capture)
  {
    && PatternAt(s, cap.start, cap.digitsEnd, cap.nameEnd, cap.linkEnd)
    && forall a: nat, b: nat, c: nat :: PatternAt(s, cap.start, a, b, c) ==>
         a == cap.digitsEnd && (cap.nameEnd < b || (cap.nameEnd == b && c <= cap.linkEnd))
  }

  /** No match starts anywhere in `from..until`. */
  ghost predicate NoMatchBetween(s: string, from: nat, until: nat)
  {
    forall i: nat, a: nat, b: nat, c: nat :: from <= i < until ==> !PatternAt(s, i, a, b, c)
  }

  /** Leftmost-first search from `pos`: `cap` is the preferred match at the first start at or
      after `pos` from which the pattern matches at all. */
  ghost predicate LeftmostFirst(s: string, pos: nat, cap: Capture)
  {
    pos <= cap.start && Preferred(s, cap) && NoMatchBetween(s, pos, cap.start)
  }

  /** Where the next search resumes: after the `.` when the terminator is a period, at the end
      of the text when it is `$`. */
  function MatchEnd(s: string, cap: Capture): nat
  {
    if cap.linkEnd < |s| then cap.linkEnd + 1 else cap.linkEnd
  }

  /** The name group of a match. */
  function Name(s: string, cap: Capture): string
    requires Fits(s, cap)
  {
    s[cap.digitsEnd + 2..cap.nameEnd]
  }

  /** The link group of a match. */
  function Link(s: string, cap: Capture): string
    requires Fits(s, cap)
  {
    s[cap.nameEnd + 2..cap.linkEnd]
  }

  // ---------------------------------------------------------------------------------------
  // The matcher, one function per part of the pattern, in backtracking order.

  /** `\d+` from `i`: the end of the longest run of digits. A shorter run would leave a digit
      where `:` must follow, so the longest run is the only one that can lead to a match. */
  function DigitsEnd(s: string, i: nat): (j: nat)
    requires i <= |s|
    ensures i <= j <= |s|
    ensures forall k :: i <= k < j ==> IsDigit(s[k])
    ensures j < |s| ==> !IsDigit(s[j])
    decreases |s| - i
  {
    if i < |s| && IsDigit(s[i]) then DigitsEnd(s, i + 1) else i
  }

  /** The end of the longest run of non-whitespace characters from `i`. */
  function NonSpaceEnd(s: string, i: nat): (j: nat)
    requires i <= |s|
    ensures i <= j <= |s|
    ensures forall k :: i <= k < j ==> !IsSpace(s[k])
    ensures j < |s| ==> IsSpace(s[j])
    decreases |s| - i
  {
    if i < |s| && !IsSpace(s[i]) then NonSpaceEnd(s, i + 1) else i
  }

  /** `(?:\.|$)` can follow a link that ends at `c`. */
  predicate Terminates(s: string, c: nat) { c == |s| || (c < |s| && s[c] == '.') }

  /** Greedy backtracking of `\S+`: the largest `c` in `lo..hi` after which a terminator
      follows. */
  function LastTerminator(s: string, lo: nat, hi: nat): (r: Option<nat>)
    requires hi <= |s|
    ensures r.Some? ==> lo <= r.value <= hi && Terminates(s, r.value)
    ensures r.Some? ==> forall c :: r.value < c <= hi ==> !Terminates(s, c)
    ensures r.None? ==> forall c :: lo <= c <= hi ==> !Terminates(s, c)
    decreases hi
  {
    if hi < lo then None
    else if Terminates(s, hi) then Some(hi)
    else if hi == 0 then None
    else LastTerminator(s, lo, hi - 1)
  }

  /** The rest of the pattern after a name ending at `b`: the longest link end, if any. */
  function LinkAfter(s: string, b: nat): (r: Option<nat>)
    requires b <= |s|
    ensures r.Some? ==> b + |LinkIntro| < r.value <= |s|
  {
    var n := |LinkIntro|;
    if b + n > |s| || s[b..b + n] != LinkIntro then None
    else LastTerminator(s, b + n + 1, NonSpaceEnd(s, b + n))
  }

  /** What `LinkAfter` finds is a link. */
  lemma LinkAfterSound(s: string, b: nat)
    requires b <= |s|
    ensures LinkAfter(s, b).Some? ==> LinkMatch(s, b, LinkAfter(s, b).value)
  {
  }

  /** Any link after `b` shows that `LinkAfter` finds one, and one at least as long. */
  lemma LinkAfterBeats(s: string, b: nat, c: nat)
    requires b <= |s| && LinkMatch(s, b, c)
    ensures LinkAfter(s, b).Some? && c <= LinkAfter(s, b).value
  {
    var hi := NonSpaceEnd(s, b + |LinkIntro|);
    assert c <= hi;
    assert Terminates(s, c);
  }

  /** `LinkAfter` finds the longest link that the rest of the pattern accepts, and `None`
      exactly when there is none. */
  lemma LinkAfterIsLongest(s: string, b: nat)
    requires b <= |s|
    ensures LinkAfter(s, b).Some? ==> LinkMatch(s, b, LinkAfter(s, b).value)
    ensures LinkAfter(s, b).Some? ==> forall c: nat :: LinkMatch(s, b, c) ==> c <= LinkAfter(s, b).value
    ensures LinkAfter(s, b).None? ==> forall c: nat :: !LinkMatch(s, b, c)
  {
    LinkAfterSound(s, b);
    forall c: nat | LinkMatch(s, b, c)
      ensures LinkAfter(s, b).Some? && c <= LinkAfter(s, b).value
    {
      LinkAfterBeats(s, b, c);
    }
  }

  /** Where the lazy name stops and the link that follows it ends. */
  datatype Split = Split(nameEnd: nat, linkEnd: nat)

  /** Lazy backtracking of `.+?` from `ns`, trying name ends `b`, `b + 1`, ... in turn. */
  function LazyName(s: string, ns: nat, b: nat): (r: Option<Split>)
    requires ns < b <= |s|
    ensures r.Some? ==> b <= r.value.nameEnd && r.value.nameEnd + |LinkIntro| < r.value.linkEnd <= |s|
    decreases |s| - b
  {
    if s[b - 1] == '\n' then None
    else match LinkAfter(s, b)
      case Some(c) => Some(Split(b, c))
      case None => if b < |s| then LazyName(s, ns, b + 1) else None
  }

  /** What `LazyName` finds is a name followed by a link. */
  lemma {:induction false} LazyNameSound(s: string, ns: nat, b: nat)
    requires ns < b <= |s|
    requires forall k :: ns <= k < b - 1 ==> s[k] != '\n'
    ensures LazyName(s, ns, b).Some? ==>
      && NameMatch(s, ns, LazyName(s, ns, b).value.nameEnd)
      && LinkMatch(s, LazyName(s, ns, b).value.nameEnd, LazyName(s, ns, b).value.linkEnd)
    decreases |s| - b
  {
    if s[b - 1] != '\n' {
      LinkAfterSound(s, b);
      if LinkAfter(s, b).None? && b < |s| {
        LazyNameSound(s, ns, b + 1);
      }
    }
  }

  /** Any name from `ns` ending at `b` or later and followed by a link shows that `LazyName`
      finds a name, and one no longer, or the same name with a link no shorter. */
  lemma {:induction false} LazyNameBeats(s: string, ns: nat, b0: nat, b: nat, c: nat)
    requires ns < b0 <= b && NameMatch(s, ns, b) && LinkMatch(s, b, c)
    ensures LazyName(s, ns, b0).Some?
    ensures var sp := LazyName(s, ns, b0).value;
      sp.nameEnd < b || (sp.nameEnd == b && c <= sp.linkEnd)
    decreases |s| - b0
  {
    assert s[b0 - 1] != '\n';
    if LinkAfter(s, b0).None? {
      if b0 == b {
        LinkAfterBeats(s, b, c);
      } else {
        LazyNameBeats(s, ns, b0 + 1, b, c);
      }
    } else if b0 == b {
      LinkAfterBeats(s, b, c);
    }
  }

  /** When `s[ns..b-1]` holds no newline, `LazyName` finds the shortest name after which the
      rest of the pattern matches, with the longest link for it, and `None` exactly when no
      name ending at `b` or later works. */
  lemma LazyNameIsShortest(s: string, ns: nat, b: nat)
    requires ns < b <= |s|
    requires forall k :: ns <= k < b - 1 ==> s[k] != '\n'
    ensures var r := LazyName(s, ns, b);
      && (r.Some? ==> NameMatch(s, ns, r.value.nameEnd) && LinkMatch(s, r.value.nameEnd, r.value.linkEnd))
      && (r.Some? ==> forall c: nat :: LinkMatch(s, r.value.nameEnd, c) ==> c <= r.value.linkEnd)
      && (r.Some? ==> forall b': nat, c: nat :: b <= b' < r.value.nameEnd && NameMatch(s, ns, b') ==>
            !LinkMatch(s, b', c))
      && (r.None? ==> forall b': nat, c: nat :: b <= b' && NameMatch(s, ns, b') ==> !LinkMatch(s, b', c))
  {
    var r := LazyName(s, ns, b);
    LazyNameSound(s, ns, b);
    forall b': nat, c: nat | b <= b' && NameMatch(s, ns, b') && LinkMatch(s, b', c)
      ensures r.Some? && (r.value.nameEnd < b' || (r.value.nameEnd == b' && c <= r.value.linkEnd))
    {
      LazyNameBeats(s, ns, b, b', c);
    }
  }

  /** The match the engine reports at start `i`, if the pattern matches there at all. */
  function MatchAt(s: string, i: nat): (r: Option<Capture>)
    requires i <= |s|
    ensures r.Some? ==> r.value.start == i && Fits(s, r.value)
  {
    var a := DigitsEnd(s, i);
    if a == i || a + 3 > |s| || s[a] != ':' || s[a + 1] != ' ' then None
    else match LazyName(s, a + 2, a + 3)
      case None => None
      case Some(sp) => Some(Capture(i, a, sp.nameEnd, sp.linkEnd))
  }

  /** Every match from `i` uses the whole run of digits there. */
  lemma DigitsForced(s: string, i: nat)
    requires i <= |s|
    ensures forall a: nat, b: nat, c: nat :: PatternAt(s, i, a, b, c) ==>
      && a == DigitsEnd(s, i) && a + 3 <= |s| && s[a] == ':' && s[a + 1] == ' '
      && NameMatch(s, a + 2, b) && LinkMatch(s, b, c)
  {
  }

  /** What `MatchAt` reports is a match. */
  lemma {:induction false} MatchAtSound(s: string, i: nat)
    requires i <= |s|
    ensures MatchAt(s, i).Some? ==>
      PatternAt(s, i, MatchAt(s, i).value.digitsEnd, MatchAt(s, i).value.nameEnd, MatchAt(s, i).value.linkEnd)
  {
    var a := DigitsEnd(s, i);
    if a != i && a + 3 <= |s| && s[a] == ':' && s[a + 1] == ' ' {
      if LazyName(s, a + 2, a + 3).Some? {
        var b, c := LazyName(s, a + 2, a + 3).value.nameEnd, LazyName(s, a + 2, a + 3).value.linkEnd;
        assert MatchAt(s, i) == Some(Capture(i, a, b, c));
        LazyNameSound(s, a + 2, a + 3);
        assert NameMatch(s, a + 2, b) && LinkMatch(s, b, c);
        assert PatternAt(s, i, a, b, c);
      } else {
        assert MatchAt(s, i).None?;
      }
    } else {
      assert MatchAt(s, i).None?;
    }
  }

  /** Any match from `i` shows that `MatchAt` reports one, with the same digits and a name
      no longer, or the same name and a link no shorter. */
  lemma MatchAtBeats(s: string, i: nat, a: nat, b: nat, c: nat)
    requires i <= |s| && PatternAt(s, i, a, b, c)
    ensures MatchAt(s, i).Some?
    ensures var cap := MatchAt(s, i).value;
      a == cap.digitsEnd && (cap.nameEnd < b || (cap.nameEnd == b && c <= cap.linkEnd))
  {
    assert a == DigitsEnd(s, i) by {
      DigitsForced(s, i);
    }
    LazyNameBeats(s, a + 2, a + 3, b, c);
  }

  /** `MatchAt` reports the preferred match at `i`, and `None` exactly when the pattern does
      not match from `i`. */
  lemma MatchAtIsPreferred(s: string, i: nat)
    requires i <= |s|
    ensures MatchAt(s, i).Some? ==> Preferred(s, MatchAt(s, i).value)
    ensures MatchAt(s, i).None? ==> forall a: nat, b: nat, c: nat :: !PatternAt(s, i, a, b, c)
  {
    forall a: nat, b: nat, c: nat | PatternAt(s, i, a, b, c)
      ensures MatchAt(s, i).Some?
      ensures var cap := MatchAt(s, i).value;
        a == cap.digitsEnd && (cap.nameEnd < b || (cap.nameEnd == b && c <= cap.linkEnd))
    {
      MatchAtBeats(s, i, a, b, c);
    }
    MatchAtSound(s, i);
  }

  /** Leftmost-first search from `pos`. */
  function Find(s: string, pos: nat): (r: Option<Capture>)
    requires pos <= |s|
    ensures r.Some? ==> pos <= r.value.start && Fits(s, r.value)
    decreases |s| - pos
  {
    match MatchAt(s, pos)
    case Some(m) => Some(m)
    case None => if pos == |s| then None else Find(s, pos + 1)
  }

  /** `Find` is the leftmost-first search: it reports the preferred match at the first start
      from which the pattern matches, and `None` only when the pattern matches nowhere. */
  lemma {:induction false} FindIsLeftmostFirst(s: string, pos: nat)
    requires pos <= |s|
    ensures Find(s, pos).Some? ==> LeftmostFirst(s, pos, Find(s, pos).value)
    ensures Find(s, pos).None? ==> NoMatchBetween(s, pos, |s| + 1)
    decreases |s| - pos
  {
    MatchAtIsPreferred(s, pos);
    if MatchAt(s, pos).None? {
      if pos < |s| {
        FindIsLeftmostFirst(s, pos + 1);
        assert Find(s, pos) == Find(s, pos + 1);
        var until := if Find(s, pos).Some? then Find(s, pos).value.start else |s| + 1;
        NoMatchExtends(s, pos, until);
      } else {
        NoMatchExtends(s, pos, pos + 1);
      }
    }
  }

  /** No match at `pos` and none in `pos + 1..until` means none in `pos..until`. */
  lemma NoMatchExtends(s: string, pos: nat, until: nat)
    requires forall a: nat, b: nat, c: nat :: !PatternAt(s, pos, a, b, c)
    requires pos < until && NoMatchBetween(s, pos + 1, until)
    ensures NoMatchBetween(s, pos, until)
  {
  }

  /** `captures_iter` from `pos`: every match, each search resuming where the last match
      ended. */
  function Captures(s: string, pos: nat): (caps: seq<Capture>)
    requires pos <= |s|
    ensures forall k :: 0 <= k < |caps| ==> pos <= caps[k].start && Fits(s, caps[k])
    decreases |s| - pos
  {
    match Find(s, pos)
    case None => []
    case Some(m) => [m] + Captures(s, MatchEnd(s, m))
  }

  // ---------------------------------------------------------------------------------------
  // What `captures_iter` yields.

  /** Where the search for the `k`-th match of `caps` starts. */
  function ResumeAt(s: string, pos: nat, caps: seq<Capture>, k: nat): nat
    requires k <= |caps|
  {
    if k == 0 then pos else MatchEnd(s, caps[k - 1])
  }

  /** The `k`-th capture is what a search yields that resumes where the previous match ended
      (at `pos` for the first). */
  lemma {:induction false} CaptureIsSearch(s: string, pos: nat, k: nat)
    requires pos <= |s| && k < |Captures(s, pos)|
    ensures ResumeAt(s, pos, Captures(s, pos), k) <= |s|
    ensures Find(s, ResumeAt(s, pos, Captures(s, pos), k)) == Some(Captures(s, pos)[k])
    decreases k
  {
    var m := Find(s, pos).value;
    var next := MatchEnd(s, m);
    var rest := Captures(s, next);
    assert Captures(s, pos) == [m] + rest;
    if k > 0 {
      CaptureIsSearch(s, next, k - 1);
      if k > 1 {
        assert Captures(s, pos)[k - 1] == rest[k - 2];
      }
      assert ResumeAt(s, pos, Captures(s, pos), k) == ResumeAt(s, next, rest, k - 1);
    }
  }

  /** The search after the last capture finds nothing. */
  lemma {:induction false} CapturesEnd(s: string, pos: nat)
    requires pos <= |s|
    ensures ResumeAt(s, pos, Captures(s, pos), |Captures(s, pos)|) <= |s|
    ensures Find(s, ResumeAt(s, pos, Captures(s, pos), |Captures(s, pos)|)) == None
    decreases |s| - pos
  {
    if Find(s, pos).Some? {
      var m := Find(s, pos).value;
      var next := MatchEnd(s, m);
      var rest := Captures(s, next);
      assert Captures(s, pos) == [m] + rest;
      CapturesEnd(s, next);
      if rest != [] {
        assert Captures(s, pos)[|rest|] == rest[|rest| - 1];
      }
      assert ResumeAt(s, pos, Captures(s, pos), |rest| + 1) == ResumeAt(s, next, rest, |rest|);
    }
  }

  /** Every capture is the leftmost-first match from where the previous match ended (from
      `pos` for the first), and after the last one nothing matches: `captures_iter` reports
      the non-overlapping matches from left to right. */
  lemma CapturesAreLeftmostFirst(s: string, pos: nat)
    requires pos <= |s|
    ensures var caps := Captures(s, pos);
      && (forall k :: 0 <= k < |caps| ==> LeftmostFirst(s, ResumeAt(s, pos, caps, k), caps[k]))
      && NoMatchBetween(s, ResumeAt(s, pos, caps, |caps|), |s| + 1)
  {
    var caps := Captures(s, pos);
    forall k | 0 <= k < |caps|
      ensures LeftmostFirst(s, ResumeAt(s, pos, caps, k), caps[k])
    {
      CaptureIsSearch(s, pos, k);
      FindIsLeftmostFirst(s, ResumeAt(s, pos, caps, k));
    }
    CapturesEnd(s, pos);
    FindIsLeftmostFirst(s, ResumeAt(s, pos, caps, |caps|));
  }

  /** Consecutive matches do not overlap: each starts at or after the end of the previous. */
  lemma CapturesInOrder(s: string, pos: nat, k: nat)
    requires pos <= |s| && k + 1 < |Captures(s, pos)|
    ensures Captures(s, pos)[k].start < MatchEnd(s, Captures(s, pos)[k])
    ensures MatchEnd(s, Captures(s, pos)[k]) <= Captures(s, pos)[k + 1].start
  {
    CapturesAreLeftmostFirst(s, pos);
    var caps := Captures(s, pos);
    assert LeftmostFirst(s, ResumeAt(s, pos, caps, k + 1), caps[k + 1]);
  }

  /** The iteration yields nothing exactly when the pattern matches nowhere from `pos`. */
  lemma NoCapturesIffNoMatch(s: string, pos: nat)
    requires pos <= |s|
    ensures Captures(s, pos) == [] <==> NoMatchBetween(s, pos, |s| + 1)
  {
    CapturesAreLeftmostFirst(s, pos);
    var caps := Captures(s, pos);
    if caps != [] {
      assert LeftmostFirst(s, pos, caps[0]);
      var c := caps[0];
      assert PatternAt(s, c.start, c.digitsEnd, c.nameEnd, c.linkEnd);
    }
  }

  /** The groups of every match: a non-empty name on one line, and a link that starts with
      `https://`, has at least one character after it and contains no whitespace. */
  lemma GroupsWellFormed(s: string, cap: Capture)
    requires Fits(s, cap) && PatternAt(s, cap.start, cap.digitsEnd, cap.nameEnd, cap.linkEnd)
    ensures |Name(s, cap)| > 0 && forall k :: 0 <= k < |Name(s, cap)| ==> Name(s, cap)[k] != '\n'
    ensures |Link(s, cap)| > 8 && Link(s, cap)[..8] == "https://"
    ensures forall k :: 0 <= k < |Link(s, cap)| ==> !IsSpace(Link(s, cap)[k])
  {
    var b := cap.nameEnd;
    assert s[b..b + 10] == LinkIntro;
    assert Link(s, cap)[..8] == s[b + 2..b + 10];
    forall k | 0 <= k < |Link(s, cap)| ensures !IsSpace(Link(s, cap)[k]) {
      assert Link(s, cap)[k] == s[b + 2 + k];
      if k < 8 {
        assert s[b + 2 + k] == LinkIntro[k + 2];
      }
    }
  }

  /** A match whose name holds no comma, and whose link is followed by whitespace after its
      period or runs to the end of the text, is reported with exactly those groups. */
  lemma ReportedGroups(s: string, i: nat, a: nat, b: nat, c: nat)
    requires PatternAt(s, i, a, b, c)
    requires forall k :: a + 2 <= k < b ==> s[k] != ','
    requires c == |s| || (c + 1 < |s| && IsSpace(s[c + 1]))
    ensures MatchAt(s, i) == Some(Capture(i, a, b, c))
  {
    MatchAtIsPreferred(s, i);
    var cap := MatchAt(s, i).value;
    assert PatternAt(s, i, cap.digitsEnd, cap.nameEnd, cap.linkEnd);
    assert cap.digitsEnd == a;
    assert s[cap.nameEnd] == ',' by {
      assert s[cap.nameEnd..cap.nameEnd + |LinkIntro|][0] == LinkIntro[0];
    }
    assert cap.nameEnd == b;
  }

  /** When the text ends with a period right after a link, that period is not read as the
      terminator: `\S+` runs on to the end of the text, where `$` matches, so the reported link
      keeps the period as its last character. A period followed by whitespace, by contrast,
      is left out of the link (`ReportedGroups`). */
  lemma FinalPeriodKept(s: string, i: nat, a: nat, b: nat, c: nat)
    requires PatternAt(s, i, a, b, c) && c + 1 == |s|
    requires forall k :: a + 2 <= k < b ==> s[k] != ','
    ensures MatchAt(s, i) == Some(Capture(i, a, b, |s|))
    ensures Link(s, Capture(i, a, b, |s|)) == s[b + 2..c] + "."
  {
    assert PatternAt(s, i, a, b, |s|);
    ReportedGroups(s, i, a, b, |s|);
    assert s[b + 2..|s|] == s[b + 2..c] + [s[c]];
  }

  /** The two-entry text `1: A, https://x.y. 2: B, https://z.` of the examples below,
      written in pieces around the two `, https://` separators. */
  const TwoEntries: string := "1: A" + LinkIntro + "x.y. " + "2: B" + LinkIntro + "z."

  /** Its first entry: the link stops before the `.` that a space follows. */
  lemma FirstEntryMatch(s: string)
    requires s == TwoEntries
    ensures MatchAt(s, 0) == Some(Capture(0, 1, 4, 17))
  {
    assert |s| == 35;
    assert s[0] == '1' && s[1] == ':' && s[2] == ' ' && s[3] == 'A';
    assert s[4..14] == LinkIntro;
    assert s[14] == 'x' && s[15] == '.' && s[16] == 'y' && s[17] == '.' && s[18] == ' ';
    assert PatternAt(s, 0, 1, 4, 17);
    ReportedGroups(s, 0, 1, 4, 17);
  }

  /** Its second entry: the link keeps the final `.`. */
  lemma SecondEntryMatch(s: string)
    requires s == TwoEntries
    ensures MatchAt(s, 19) == Some(Capture(19, 20, 23, 35))
  {
    assert |s| == 35;
    assert s[19] == '2' && s[20] == ':' && s[21] == ' ' && s[22] == 'B';
    assert s[23..33] == LinkIntro;
    assert s[33] == 'z' && s[34] == '.';
    assert PatternAt(s, 19, 20, 23, 34);
    FinalPeriodKept(s, 19, 20, 23, 34);
  }

  /** The groups of the two entries. */
  lemma EntryGroups(s: string)
    requires s == TwoEntries
    ensures Name(s, Capture(0, 1, 4, 17)) == "A" && Link(s, Capture(0, 1, 4, 17)) == "https://x.y"
    ensures Name(s, Capture(19, 20, 23, 35)) == "B" && Link(s, Capture(19, 20, 23, 35)) == "https://z."
  {
    assert |s| == 35;
    assert LinkIntro[2..] == "https://";
    assert s[3..4] == "A" && s[22..23] == "B";
    assert s[6..17] == s[6..14] + s[14..17] && s[6..14] == LinkIntro[2..] && s[14..17] == "x.y";
    assert s[25..35] == s[25..33] + s[33..35] && s[25..33] == LinkIntro[2..] && s[33..35] == "z.";
  }

  /** `captures_iter` on the two-entry text yields exactly its two entries, and the first
      link ends before its period while the last one keeps it. */
  lemma TwoEntryCaptures(s: string)
    requires s == TwoEntries
    ensures Captures(s, 0) == [Capture(0, 1, 4, 17), Capture(19, 20, 23, 35)]
    ensures Name(s, Capture(0, 1, 4, 17)) == "A" && Link(s, Capture(0, 1, 4, 17)) == "https://x.y"
    ensures Name(s, Capture(19, 20, 23, 35)) == "B" && Link(s, Capture(19, 20, 23, 35)) == "https://z."
  {
    assert |s| == 35;
    FirstEntryMatch(s);
    SecondEntryMatch(s);
    EntryGroups(s);
    assert s[18] == ' ';
    assert MatchAt(s, 18).None? by {
      assert DigitsEnd(s, 18) == 18;
    }
    assert Find(s, 18) == Some(Capture(19, 20, 23, 35));
    assert MatchAt(s, 35).None? by {
      assert DigitsEnd(s, 35) == 35;
    }
    assert Captures(s, 35) == [];
    assert Captures(s, 18) == [Capture(19, 20, 23, 35)];
  }
}
