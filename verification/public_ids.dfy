/** The two ways the code base derives a media-host public id from a hosted
    image URL:

    - at run time (middleware/cloudinary.js) with `/\/v\d+\/(.+)\./`, and
    - at seed time (seeds/seedPosts.js and its two siblings) with
      `/\/v\d+\/(.*?)(?:\.\w+)?$/`.

    Each pattern is given twice: as a declarative predicate saying which
    spans of the string the pattern can match (`RuntimeMatch`, `SeedMatch`),
    and as a scanner that finds the match a backtracking engine reports
    (leftmost start, then greedy `.+` or lazy `.*?`). The scanners' contracts
    connect the two. Neither pattern carries the `m` or `s` flag, so `.` stops
    at line terminators and `$` means the end of the input. */
module PublicIds {
  import opened Js

  predicate IsDigit(c: char) {
    '0' <= c <= '9'
  }

  /** `\w` without the `u` flag. */
  predicate IsWordChar(c: char) {
    'a' <= c <= 'z' || 'A' <= c <= 'Z' || IsDigit(c) || c == '_'
  }

  /** The characters `.` does not match. */
  predicate IsLineTerminator(c: char) {
    c == '\n' || c == '\r' || c == '\U{2028}' || c == '\U{2029}'
  }

  predicate SingleLine(s: string) {
    forall j :: 0 <= j < |s| ==> !IsLineTerminator(s[j])
  }

  /** A match start, the index of the `/` that closes the version segment,
      and the index where the capture group stops. */
  datatype Span = Span(start: nat, version: nat, stop: nat)

  // ---------------------------------------------------------------------
  // The `/v\d+/` prefix both patterns share

  /** `/v\d+/` matches `s[p..q+1]`. */
  ghost predicate VersionAt(s: string, p: int, q: int) {
    && 0 <= p
    && p + 3 <= q < |s|
    && s[p] == '/'
    && s[p + 1] == 'v'
    && s[q] == '/'
    && forall j :: p + 2 <= j < q ==> IsDigit(s[j])
  }

  /** The end of the run of digits that starts at `i`. */
  function DigitsEnd(s: string, i: nat): (k: nat)
    requires i <= |s|
    ensures i <= k <= |s|
    ensures forall j :: i <= j < k ==> IsDigit(s[j])
    ensures k < |s| ==> !IsDigit(s[k])
    decreases |s| - i
  {
    if i < |s| && IsDigit(s[i]) then DigitsEnd(s, i + 1) else i
  }

  /** Where the version segment starting at `p` closes, if there is one.
      Since `/` is not a digit, backtracking inside `\d+` never helps: the
      segment is unique. */
  function VersionEnd(s: string, p: nat): (r: Option<nat>)
    ensures r.Some? ==> VersionAt(s, p, r.value)
    ensures forall q :: VersionAt(s, p, q) ==> r == Some(q)
  {
    if p + 2 <= |s| && s[p] == '/' && s[p + 1] == 'v' then
      var k := DigitsEnd(s, p + 2);
      if p + 2 < k < |s| && s[k] == '/' then Some(k) else None
    else
      None
  }

  /** Two version segments overlap only if they are the same one. */
  lemma VersionOrder(s: string, p1: int, q1: int, p2: int, q2: int)
    requires VersionAt(s, p1, q1) && VersionAt(s, p2, q2) && p1 < p2
    ensures q1 <= p2
  {
    assert s[p2] == '/' && s[p1 + 1] == 'v';
  }

  /** The first line terminator at or after `i`, or `|s|`. */
  function LineEnd(s: string, i: nat): (k: nat)
    requires i <= |s|
    ensures i <= k <= |s|
    ensures forall j :: i <= j < k ==> !IsLineTerminator(s[j])
    ensures k < |s| ==> IsLineTerminator(s[k])
    decreases |s| - i
  {
    if i < |s| && !IsLineTerminator(s[i]) then LineEnd(s, i + 1) else i
  }

  /** A position reachable from `i` without crossing a line terminator, and
      holding a character that is not one, lies before the line's end. */
  lemma BeforeLineEnd(s: string, i: nat, e: nat)
    requires i <= e < |s| && !IsLineTerminator(s[e])
    requires forall j :: i <= j < e ==> !IsLineTerminator(s[j])
    ensures e < LineEnd(s, i)
  {
    var k := LineEnd(s, i);
    if k < |s| {
      assert IsLineTerminator(s[k]);
    }
  }

  // ---------------------------------------------------------------------
  // Run time: /\/v\d+\/(.+)\./

  /** The run-time pattern matches from `p`, with the version segment closing
      at `q` and the capture `s[q+1..e]` followed by the `.` at `e`. */
  ghost predicate RuntimeMatch(s: string, p: int, q: int, e: int) {
    && VersionAt(s, p, q)
    && q + 2 <= e < |s|
    && s[e] == '.'
    && forall j :: q + 1 <= j < e ==> !IsLineTerminator(s[j])
  }

  /** The match `String.prototype.match` reports: the leftmost start, and at
      that start the longest capture (`.+` is greedy). */
  ghost predicate RuntimeChosen(s: string, p: int, q: int, e: int) {
    && RuntimeMatch(s, p, q, e)
    && (forall p2, q2, e2 :: p2 < p ==> !RuntimeMatch(s, p2, q2, e2))
    && (forall e2 :: RuntimeMatch(s, p, q, e2) ==> e2 <= e)
  }

  /** The last `.` in `s[lo..hi]`. */
  function LastDot(s: string, lo: nat, hi: nat): (r: Option<nat>)
    requires hi <= |s|
    ensures r.Some? ==> lo <= r.value < hi && s[r.value] == '.'
    ensures r.Some? ==> forall j :: r.value < j < hi ==> s[j] != '.'
    ensures r.None? ==> forall j :: lo <= j < hi ==> s[j] != '.'
    decreases hi
  {
    if hi <= lo then None
    else if s[hi - 1] == '.' then Some(hi - 1)
    else LastDot(s, lo, hi - 1)
  }

  /** The run-time pattern tried at `p` alone. */
  function RuntimeAt(s: string, p: nat): (r: Option<Span>)
    ensures r.Some? ==> r.value.start == p
    ensures r.Some? ==> RuntimeMatch(s, p, r.value.version, r.value.stop)
    ensures r.Some? ==> forall e :: RuntimeMatch(s, p, r.value.version, e) ==> e <= r.value.stop
    ensures r.None? ==> forall q, e :: !RuntimeMatch(s, p, q, e)
  {
    match VersionEnd(s, p)
    case None => None
    case Some(q) =>
      var line := LineEnd(s, q + 1);
      match LastDot(s, q + 2, line)
      case None =>
        assert forall e :: RuntimeMatch(s, p, q, e) ==> e < line by {
          forall e | RuntimeMatch(s, p, q, e) {
            BeforeLineEnd(s, q + 1, e);
          }
        }
        None
      case Some(e) =>
        assert forall e2 :: RuntimeMatch(s, p, q, e2) ==> e2 <= e by {
          forall e2 | RuntimeMatch(s, p, q, e2) {
            BeforeLineEnd(s, q + 1, e2);
          }
        }
        Some(Span(p, q, e))
  }

  /** The run-time pattern tried at `p`, `p + 1`, ... in turn. */
  function RuntimeFrom(s: string, p: nat): (r: Option<Span>)
    ensures r.Some? ==> p <= r.value.start
    ensures r.Some? ==> RuntimeMatch(s, r.value.start, r.value.version, r.value.stop)
    ensures r.Some? ==> forall e :: RuntimeMatch(s, r.value.start, r.value.version, e) ==> e <= r.value.stop
    ensures r.Some? ==> forall p2, q, e :: p <= p2 < r.value.start ==> !RuntimeMatch(s, p2, q, e)
    ensures r.None? ==> forall p2, q, e :: p <= p2 ==> !RuntimeMatch(s, p2, q, e)
    decreases |s| - p
  {
    if |s| <= p then None
    else match RuntimeAt(s, p)
      case Some(m) => Some(m)
      case None => RuntimeFrom(s, p + 1)
  }

  /** The capture group of `s.match(/\/v\d+\/(.+)\./)`, or `None` when the
      string does not match. A capture is never empty and is always the
      chosen match's text between the version segment and a `.`. */
  function RuntimeCapture(s: string): (r: Option<string>)
    ensures r.None? <==> forall p, q, e :: !RuntimeMatch(s, p, q, e)
    ensures r.Some? ==> exists p, q, e :: RuntimeChosen(s, p, q, e) && r.value == s[q + 1..e]
    ensures r.Some? ==> |r.value| > 0
  {
    match RuntimeFrom(s, 0)
    case None => None
    case Some(m) =>
      assert RuntimeChosen(s, m.start, m.version, m.stop);
      Some(s[m.version + 1..m.stop])
  }

  /** `c` sits between a `/` and the last `.` of `s`. */
  predicate BeforeLastDot(s: string, c: string) {
    var d := LastDot(s, 0, |s|);
    && d.Some? && |c| < d.value
    && s[d.value - |c|..d.value] == c
    && s[d.value - |c| - 1] == '/'
  }

  /** On a one-line string, a run-time capture starts right after a version
      segment and ends just before the LAST `.` of the string. */
  lemma RuntimeCaptureEndsAtLastDot(s: string)
    requires SingleLine(s)
    requires RuntimeCapture(s).Some?
    ensures BeforeLastDot(s, RuntimeCapture(s).value)
  {
    var m := RuntimeFrom(s, 0).value;
    ChosenEndIsLastDot(s, m.start, m.version, m.stop);
    CaptureBeforeDot(s, m.version, m.stop, RuntimeCapture(s).value);
  }

  /** The text between a `/` at `q` and the last `.` at `e`. */
  lemma CaptureBeforeDot(s: string, q: int, e: int, c: string)
    requires 0 <= q < e <= |s| && s[q] == '/'
    requires LastDot(s, 0, |s|) == Some(e)
    requires c == s[q + 1..e]
    ensures BeforeLastDot(s, c)
  {
  }

  /** The longest run-time match from a start closes its version segment
      with a `/` and ends at the last `.` of the string. */
  lemma ChosenEndIsLastDot(s: string, p: int, q: int, e: int)
    requires SingleLine(s)
    requires RuntimeMatch(s, p, q, e)
    requires forall e2 :: RuntimeMatch(s, p, q, e2) ==> e2 <= e
    ensures 0 <= q && s[q] == '/'
    ensures LastDot(s, 0, |s|) == Some(e)
  {
    GreedyEndIsLastDot(s, p, q, e);
  }

  /** A run-time match with no version segment before it and no `.` after
      it is the one reported, and determines the capture. */
  lemma RuntimeCaptureOf(s: string, p: int, q: int, e: int)
    requires RuntimeMatch(s, p, q, e)
    requires forall p2, q2 :: p2 < p ==> !VersionAt(s, p2, q2)
    requires forall j :: e < j < |s| ==> s[j] != '.'
    ensures RuntimeCapture(s) == Some(s[q + 1..e])
  {
    var c := RuntimeCapture(s).value;
    var p1, q1, e1 :| RuntimeChosen(s, p1, q1, e1) && c == s[q1 + 1..e1];
    assert p1 == p;
    assert VersionEnd(s, p) == Some(q) == Some(q1);
    assert e1 == e;
  }

  /** The longest run-time match from a start ends at the last `.`. */
  lemma GreedyEndIsLastDot(s: string, p: int, q: int, e: int)
    requires SingleLine(s)
    requires RuntimeMatch(s, p, q, e)
    requires forall e2 :: RuntimeMatch(s, p, q, e2) ==> e2 <= e
    ensures forall j :: e < j < |s| ==> s[j] != '.'
  {
    forall j | e < j < |s|
      ensures s[j] != '.'
    {
      if s[j] == '.' {
        assert RuntimeMatch(s, p, q, j);
      }
    }
  }

  // ---------------------------------------------------------------------
  // Seed time: /\/v\d+\/(.*?)(?:\.\w+)?$/

  /** `\.\w+$` matches `s[k..]`. */
  predicate ExtensionAt(s: string, k: int) {
    && 0 <= k
    && k + 1 < |s|
    && s[k] == '.'
    && forall j :: k < j < |s| ==> IsWordChar(s[j])
  }

  /** The seed pattern matches from `p`, with the version segment closing at
      `q` and the capture `s[q+1..k]`, followed either by the end of the input
      or by one `.\w+` that reaches the end. */
  ghost predicate SeedMatch(s: string, p: int, q: int, k: int) {
    && VersionAt(s, p, q)
    && q + 1 <= k <= |s|
    && (forall j :: q + 1 <= j < k ==> !IsLineTerminator(s[j]))
    && (k == |s| || ExtensionAt(s, k))
  }

  /** The reported match: leftmost start, and at that start the SHORTEST
      capture (`.*?` is lazy). */
  ghost predicate SeedChosen(s: string, p: int, q: int, k: int) {
    && SeedMatch(s, p, q, k)
    && (forall p2, q2, k2 :: p2 < p ==> !SeedMatch(s, p2, q2, k2))
    && (forall k2 :: SeedMatch(s, p, q, k2) ==> k <= k2)
  }

  /** The first `k >= i` at which the optional extension and `$` can finish
      the match. */
  function SeedEnd(s: string, i: nat): (k: nat)
    requires i <= |s|
    ensures i <= k <= |s|
    ensures k == |s| || ExtensionAt(s, k)
    ensures forall j :: i <= j < k ==> !ExtensionAt(s, j)
    decreases |s| - i
  {
    if i == |s| || ExtensionAt(s, i) then i else SeedEnd(s, i + 1)
  }

  /** A line terminator after the version segment makes `$` unreachable:
      the capture cannot cross it and `\w` does not match it. */
  lemma TerminatorBlocksSeed(s: string, p: int, q: int, k: int)
    requires VersionAt(s, p, q)
    requires LineEnd(s, q + 1) < |s|
    ensures !SeedMatch(s, p, q, k)
  {
    var line := LineEnd(s, q + 1);
    assert !IsWordChar(s[line]) && s[line] != '.';
    assert q + 1 <= line < k ==> !SeedMatch(s, p, q, k);
  }

  /** The seed pattern tried at `p` alone. */
  function SeedAt(s: string, p: nat): (r: Option<Span>)
    ensures r.Some? ==> r.value.start == p
    ensures r.Some? ==> SeedMatch(s, p, r.value.version, r.value.stop)
    ensures r.Some? ==> forall k :: SeedMatch(s, p, r.value.version, k) ==> r.value.stop <= k
    ensures r.None? ==> forall q, k :: !SeedMatch(s, p, q, k)
  {
    match VersionEnd(s, p)
    case None => None
    case Some(q) =>
      if LineEnd(s, q + 1) < |s| then
        assert forall k :: !SeedMatch(s, p, q, k) by {
          forall k {
            TerminatorBlocksSeed(s, p, q, k);
          }
        }
        None
      else
        Some(Span(p, q, SeedEnd(s, q + 1)))
  }

  /** The seed pattern tried at `p`, `p + 1`, ... in turn. */
  function SeedFrom(s: string, p: nat): (r: Option<Span>)
    ensures r.Some? ==> p <= r.value.start
    ensures r.Some? ==> SeedMatch(s, r.value.start, r.value.version, r.value.stop)
    ensures r.Some? ==> forall k :: SeedMatch(s, r.value.start, r.value.version, k) ==> r.value.stop <= k
    ensures r.Some? ==> forall p2, q, k :: p <= p2 < r.value.start ==> !SeedMatch(s, p2, q, k)
    ensures r.None? ==> forall p2, q, k :: p <= p2 ==> !SeedMatch(s, p2, q, k)
    decreases |s| - p
  {
    if |s| <= p then None
    else match SeedAt(s, p)
      case Some(m) => Some(m)
      case None => SeedFrom(s, p + 1)
  }

  /** The capture group of `s.match(/\/v\d+\/(.*?)(?:\.\w+)?$/)`, or `None`
      when the string does not match. */
  function SeedCapture(s: string): (r: Option<string>)
    ensures r.None? <==> forall p, q, k :: !SeedMatch(s, p, q, k)
    ensures r.Some? ==> exists p, q, k :: SeedChosen(s, p, q, k) && r.value == s[q + 1..k]
  {
    match SeedFrom(s, 0)
    case None => None
    case Some(m) =>
      assert SeedChosen(s, m.start, m.version, m.stop);
      Some(s[m.version + 1..m.stop])
  }

  /** Only one match is ever reported. */
  lemma SeedChosenUnique(s: string, p1: int, q1: int, k1: int, p2: int, q2: int, k2: int)
    requires SeedChosen(s, p1, q1, k1) && SeedChosen(s, p2, q2, k2)
    ensures p1 == p2 && q1 == q2 && k1 == k2
  {
    assert !(p1 < p2) && !(p2 < p1);
    assert VersionEnd(s, p1) == Some(q1) == Some(q2);
    assert k1 <= k2 && k2 <= k1;
  }

  /** The reported seed match determines the capture. */
  lemma SeedCaptureOf(s: string, p: int, q: int, k: int)
    requires SeedChosen(s, p, q, k)
    ensures SeedCapture(s) == Some(s[q + 1..k])
  {
    assert SeedCapture(s).Some?;
    var r := SeedCapture(s).value;
    var p', q', k' :| SeedChosen(s, p', q', k') && r == s[q' + 1..k'];
    SeedChosenUnique(s, p, q, k, p', q', k');
  }

  /** `t` without one trailing `.<word characters>`: the reference the seed
      pattern is measured against. */
  function DropExtension(t: string): string {
    match LastDot(t, 0, |t|)
    case None => t
    case Some(d) => if ExtensionAt(t, d) then t[..d] else t
  }

  /** An extension starts at the last `.` of the string. */
  lemma ExtensionIsLastDot(t: string, d: int)
    requires ExtensionAt(t, d)
    ensures LastDot(t, 0, |t|) == Some(d)
    ensures forall j :: d < j < |t| ==> t[j] != '.'
  {
  }

  /** Whether `.\w+$` matches at `d` in a suffix of `s` or at `o + d` in `s`
      is the same question. */
  lemma ExtensionShift(s: string, o: int, d: int)
    requires 0 <= o <= |s| && 0 <= d
    ensures ExtensionAt(s[o..], d) <==> ExtensionAt(s, o + d)
  {
    var t := s[o..];
    if ExtensionAt(s, o + d) {
      forall j | d < j < |t|
        ensures IsWordChar(t[j])
      {
        assert t[j] == s[o + j];
      }
    }
    if ExtensionAt(t, d) {
      forall j | o + d < j < |s|
        ensures IsWordChar(s[j])
      {
        assert s[j] == t[j - o];
      }
    }
  }

  /** On a one-line string, the seed capture is everything after the leftmost
      version segment, minus one trailing `.<word characters>`. */
  lemma SeedCaptureDropsExtension(s: string, p: int, q: int)
    requires SingleLine(s)
    requires VersionAt(s, p, q)
    requires forall p2, q2 :: p2 < p ==> !VersionAt(s, p2, q2)
    ensures SeedCapture(s) == Some(DropExtension(s[q + 1..]))
  {
    SeedEndDropsExtension(s, q + 1);
    SeedCaptureAtLeftmost(s, p, q, DropExtension(s[q + 1..]));
  }

  /** On a one-line string, the leftmost version segment starts the reported
      seed match, and the lazy capture runs to the first place the optional
      extension can finish it. */
  lemma SeedCaptureAtLeftmost(s: string, p: int, q: int, c: string)
    requires SingleLine(s)
    requires VersionAt(s, p, q)
    requires forall p2, q2 :: p2 < p ==> !VersionAt(s, p2, q2)
    requires c == s[q + 1..SeedEnd(s, q + 1)]
    ensures SeedCapture(s) == Some(c)
  {
    var k := SeedEnd(s, q + 1);
    assert SeedMatch(s, p, q, k);
    assert SeedChosen(s, p, q, k);
    SeedCaptureOf(s, p, q, k);
  }

  /** Cutting a suffix at the first place an extension can finish it drops
      exactly one trailing `.<word characters>`. */
  lemma SeedEndDropsExtension(s: string, o: nat)
    requires o <= |s|
    ensures s[o..SeedEnd(s, o)] == DropExtension(s[o..])
  {
    var t := s[o..];
    var k := SeedEnd(s, o);
    if k == |s| {
      forall d | 0 <= d
        ensures !ExtensionAt(t, d)
      {
        ExtensionShift(s, o, d);
      }
      assert t == s[o..k];
    } else {
      var d := k - o;
      ExtensionShift(s, o, d);
      ExtensionIsLastDot(t, d);
      assert t[..d] == s[o..k];
    }
  }

  /** A version segment before the run-time match, in a one-line string,
      could have started the run-time match itself. */
  lemma EarlierVersionMatchesAtRuntime(s: string, p2: int, q2: int, p: int, q: int, e: int)
    requires SingleLine(s)
    requires RuntimeMatch(s, p, q, e)
    requires p2 < p
    ensures VersionAt(s, p2, q2) ==> RuntimeMatch(s, p2, q2, e)
  {
    if VersionAt(s, p2, q2) {
      VersionOrder(s, p2, q2, p, q);
    }
  }

  /** When a one-line URL ends in `.<word characters>`, the two patterns
      agree: the greedy run-time capture stops at the last `.`, which is
      exactly the extension the seed pattern drops. */
  lemma PatternsAgreeWithExtension(s: string, d: int)
    requires SingleLine(s)
    requires ExtensionAt(s, d)
    requires RuntimeCapture(s).Some?
    ensures SeedCapture(s) == RuntimeCapture(s)
  {
    var c := RuntimeCapture(s).value;
    var p, q, e :| RuntimeChosen(s, p, q, e) && c == s[q + 1..e];
    ExtensionIsLastDot(s, d);
    assert e <= d;
    assert RuntimeMatch(s, p, q, d);
    assert e == d;
    assert SeedMatch(s, p, q, d);
    forall p2, q2, k2 | p2 < p
      ensures !SeedMatch(s, p2, q2, k2)
    {
      EarlierVersionMatchesAtRuntime(s, p2, q2, p, q, e);
    }
    forall k2 | SeedMatch(s, p, q, k2)
      ensures d <= k2
    {
    }
    assert SeedChosen(s, p, q, d);
    SeedCaptureOf(s, p, q, d);
  }

  /** No `/v` pair starts inside `s`. */
  predicate NoVersionStart(s: string) {
    forall j :: 0 <= j < |s| - 1 ==> !(s[j] == '/' && s[j + 1] == 'v')
  }

  lemma NoVersionStartAppend(a: string, b: string)
    requires NoVersionStart(a) && NoVersionStart(b)
    requires |a| > 0 && |b| > 0 ==> !(a[|a| - 1] == '/' && b[0] == 'v')
    ensures NoVersionStart(a + b)
  {
    var s := a + b;
    forall j | 0 <= j < |s| - 1
      ensures !(s[j] == '/' && s[j + 1] == 'v')
    {
      if j < |a| - 1 {
        assert s[j] == a[j] && s[j + 1] == a[j + 1];
      } else if j == |a| - 1 {
        assert s[j] == a[|a| - 1] && s[j + 1] == b[0];
      } else {
        assert s[j] == b[j - |a|] && s[j + 1] == b[j + 1 - |a|];
      }
    }
  }

  lemma SingleLineAppend(a: string, b: string)
    requires SingleLine(a) && SingleLine(b)
    ensures SingleLine(a + b)
  {
    var s := a + b;
    forall j | 0 <= j < |s|
      ensures !IsLineTerminator(s[j])
    {
      if j < |a| {
        assert s[j] == a[j];
      } else {
        assert s[j] == b[j - |a|];
      }
    }
  }

  /** A one-line URL `host/v<digits>/id` whose id has no `.` (the shape of
      the shipped team photos): the run-time pattern finds nothing, while the
      seed pattern captures the whole id. */
  lemma ExtensionlessUrlPatternsDisagree(host: string, digits: string, id: string)
    requires SingleLine(host) && SingleLine(id)
    requires NoVersionStart(host)
    requires |digits| > 0 && forall j :: 0 <= j < |digits| ==> IsDigit(digits[j])
    requires forall j :: 0 <= j < |id| ==> id[j] != '.'
    ensures RuntimeCapture(host + "/v" + digits + "/" + id) == None
    ensures SeedCapture(host + "/v" + digits + "/" + id) == Some(id)
  {
    var s := host + "/v" + digits + "/" + id;
    var p := |host|;
    var q := |host| + 2 + |digits|;
    assert s[..p] == host;
    assert s[p] == '/' && s[p + 1] == 'v' && s[q] == '/';
    assert s[q + 1..] == id;
    forall j | p + 2 <= j < q
      ensures IsDigit(s[j])
    {
      assert s[j] == digits[j - p - 2];
    }
    assert VersionAt(s, p, q);
    // No version segment starts inside the host.
    forall p2, q2 | p2 < p
      ensures !VersionAt(s, p2, q2)
    {
      if 0 <= p2 < p - 1 {
        assert s[p2] == host[p2] && s[p2 + 1] == host[p2 + 1];
      } else if p2 == p - 1 {
        assert s[p2 + 1] == '/';
      }
    }
    // Every `.` of `s` lies in the host.
    forall j | p <= j < |s|
      ensures s[j] != '.'
    {
      if j <= q {
        assert j == p || j == p + 1 || j == q || IsDigit(s[j]);
      } else {
        assert s[j] == id[j - q - 1];
      }
    }
    assert forall p2, q2, e :: !RuntimeMatch(s, p2, q2, e);
    forall j | 0 <= j < |s|
      ensures !IsLineTerminator(s[j])
    {
      if j < p {
        assert s[j] == host[j];
      } else if j > q {
        assert s[j] == id[j - q - 1];
      } else {
        assert j == p || j == p + 1 || j == q || IsDigit(s[j]);
      }
    }
    SeedCaptureDropsExtension(s, p, q);
    assert LastDot(id, 0, |id|) == None;
  }

  /** The URL the image host serves for an upload, `host/v<digits>/id.ext`
      with no `.` in `id` or `ext`: the run-time pattern gives back `id`. */
  lemma HostedUrlCapture(host: string, digits: string, id: string, ext: string)
    requires SingleLine(host) && SingleLine(id) && SingleLine(ext)
    requires NoVersionStart(host)
    requires |digits| > 0 && forall j :: 0 <= j < |digits| ==> IsDigit(digits[j])
    requires |id| > 0 && forall j :: 0 <= j < |id| ==> id[j] != '.'
    requires forall j :: 0 <= j < |ext| ==> ext[j] != '.'
    ensures RuntimeCapture(host + "/v" + digits + "/" + id + "." + ext) == Some(id)
  {
    var s := host + "/v" + digits + "/" + id + "." + ext;
    var q := |host| + 2 + |digits|;
    HostedUrlLayout(host, digits, id, ext);
    RuntimeCaptureOf(s, |host|, q, q + 1 + |id|);
  }

  /** Where the pieces of a hosted URL sit: the version segment right after
      the host, the run-time pattern matching there up to the `.` before the
      extension, no earlier version segment and no later `.`. */
  lemma HostedUrlLayout(host: string, digits: string, id: string, ext: string)
    requires SingleLine(host) && SingleLine(id) && SingleLine(ext)
    requires NoVersionStart(host)
    requires |digits| > 0 && forall j :: 0 <= j < |digits| ==> IsDigit(digits[j])
    requires |id| > 0 && forall j :: 0 <= j < |id| ==> id[j] != '.'
    requires forall j :: 0 <= j < |ext| ==> ext[j] != '.'
    ensures var s := host + "/v" + digits + "/" + id + "." + ext;
      var p, q := |host|, |host| + 2 + |digits|;
      var e := q + 1 + |id|;
      && RuntimeMatch(s, p, q, e)
      && s[q + 1..e] == id
      && (forall p2, q2 :: p2 < p ==> !VersionAt(s, p2, q2))
      && (forall j :: e < j < |s| ==> s[j] != '.')
  {
    var s := host + "/v" + digits + "/" + id + "." + ext;
    var p := |host|;
    var q := |host| + 2 + |digits|;
    var e := q + 1 + |id|;
    assert s[p] == '/' && s[p + 1] == 'v' && s[q] == '/' && s[e] == '.';
    assert s[q + 1..e] == id;
    forall j | p + 2 <= j < q
      ensures IsDigit(s[j])
    {
      assert s[j] == digits[j - p - 2];
    }
    assert VersionAt(s, p, q);
    forall j | q + 1 <= j < e
      ensures !IsLineTerminator(s[j])
    {
      assert s[j] == id[j - q - 1];
    }
    assert RuntimeMatch(s, p, q, e);
    forall p2, q2 | p2 < p
      ensures !VersionAt(s, p2, q2)
    {
      if 0 <= p2 < p - 1 {
        assert s[p2] == host[p2] && s[p2 + 1] == host[p2 + 1];
      } else if p2 == p - 1 {
        assert s[p2 + 1] == '/';
      }
    }
    forall j | e < j < |s|
      ensures s[j] != '.'
    {
      assert s[j] == ext[j - e - 1];
    }
  }
}
