/** The ambassador-programme helpers of `src/utilities/ambassador.ts`:
    status emoji, referral codes derived from a member's names, invite-URL
    parsing and the eligibility decision. Dates are replaced by the day
    counts the source computes from them. */
module Ambassador {
  import opened Wrappers
  import opened Sequences
  import opened JsStrings

  const CHECK_MARK: string := "\U{2705}"
  const WARNING_SIGN: string := "\U{26A0}\U{FE0F}"

  /** The emoji shown next to an eligibility condition. */
  function ToStatusEmoji(status: bool): (r: string)
    ensures status ==> r == CHECK_MARK
    ensures !status ==> r == WARNING_SIGN
  {
    if status then CHECK_MARK else WARNING_SIGN
  }

  /** Met and unmet conditions are always shown differently. */
  lemma StatusEmojiInjective(a: bool, b: bool)
    ensures ToStatusEmoji(a) == ToStatusEmoji(b) <==> a == b
  {
    if a != b {
      assert ToStatusEmoji(a)[0] != ToStatusEmoji(b)[0];
    }
  }

  // ---------------------------------------------------------------------
  // Referral codes

  /** The characters the pattern `/[^a-z0-9_-]+/gi` leaves in place. */
  predicate IsReferralChar(c: char)
  {
    ('a' <= c <= 'z') || ('A' <= c <= 'Z') || ('0' <= c <= '9') || c == '_' || c == '-'
  }

  /** Letters, digits and underscores: the kept characters other than the
      hyphen, which also serves as the separator. */
  predicate IsWordChar(c: char)
  {
    ('a' <= c <= 'z') || ('A' <= c <= 'Z') || ('0' <= c <= '9') || c == '_'
  }

  predicate IsCodeChar(c: char)
  {
    ('a' <= c <= 'z') || ('0' <= c <= '9') || c == '_' || c == '-'
  }

  /** A well-formed referral code: lower-case ASCII letters, digits, `_`, `-`. */
  predicate IsReferralCode(s: string)
  {
    forall i :: 0 <= i < |s| ==> IsCodeChar(s[i])
  }

  function IsNotHyphen(c: char): bool { c != '-' }

  /** One whitespace-separated piece with the disallowed characters removed. */
  function StripPart(part: string): (r: string)
    ensures |r| <= |part|
    ensures forall i :: 0 <= i < |r| ==> IsReferralChar(r[i])
    ensures forall i :: 0 <= i < |part| && IsReferralChar(part[i]) ==> part[i] in r
  {
    Filter(IsReferralChar, part)
  }

  /** `filter(Boolean)` on strings. */
  function IsNonEmpty(s: string): bool { s != "" }

  /** The cleaned, non-empty pieces of `s`, in order. */
  function CodeSegments(s: string): (parts: seq<string>)
    ensures forall i, j :: 0 <= i < |parts| && 0 <= j < |parts[i]| ==> IsReferralChar(parts[i][j])
    ensures forall i :: 0 <= i < |parts| ==> parts[i] != ""
  {
    var stripped := Map(StripPart, SplitOnWhitespace(s));
    var parts := Filter(IsNonEmpty, stripped);
    assert forall i :: 0 <= i < |parts| ==> parts[i] in stripped;
    parts
  }

  /** `toReferralCode`: the cleaned pieces joined by `-`, lower-cased; the
      final `encodeURIComponent` has nothing left to escape. */
  function ToReferralCode(s: string): (code: string)
    ensures IsReferralCode(code)
    ensures code == Lower(Join(CodeSegments(s), "-"))
  {
    var joined := Join(CodeSegments(s), "-");
    JoinElements(CodeSegments(s), "-", IsReferralChar);
    var lowered := Lower(joined);
    assert IsReferralCode(lowered);
    EncodeIdentity(lowered);
    EncodeUriComponent(lowered)
  }

  /** A referral code is its own referral code, so deriving a code twice is
      deriving it once. */
  lemma ToReferralCodeIdempotent(s: string)
    ensures ToReferralCode(ToReferralCode(s)) == ToReferralCode(s)
  {
    var code := ToReferralCode(s);
    ReferralCodeIsFixed(code);
  }

  lemma ReferralCodeIsFixed(code: string)
    requires IsReferralCode(code)
    ensures ToReferralCode(code) == code
  {
    SplitWithoutWhitespace(code);
    FilterKeepsAll(IsReferralChar, code);
    assert Map(StripPart, [code]) == [code];
    if code == "" {
      assert CodeSegments(code) == [];
    } else {
      assert CodeSegments(code) == [code];
    }
  }

  /** A single word's code is its kept characters, lower-cased. */
  lemma WordCode(a: string)
    requires NoWhitespace(a)
    ensures ToReferralCode(a) == Lower(StripPart(a))
    ensures CodeSegments(a) == if StripPart(a) == "" then [] else [StripPart(a)]
  {
    SplitWithoutWhitespace(a);
    assert Map(StripPart, [a]) == [StripPart(a)];
  }

  /** Words separated by whitespace become segments separated by `-`: a word
      that keeps a character, a run of whitespace and a rest whose code is not
      empty give the word's code, a hyphen and the rest's code. */
  lemma CodeSplitsAtRun(a: string, ws: string, b: string)
    requires NoWhitespace(a)
    requires ws != [] && AllWhitespace(ws)
    requires b == [] || !IsJsWhitespace(b[0])
    requires ToReferralCode(a) != "" && ToReferralCode(b) != ""
    ensures ToReferralCode(a + ws + b) == ToReferralCode(a) + "-" + ToReferralCode(b)
  {
    var x := StripPart(a);
    var segs := CodeSegments(b);
    var tail := Join(segs, "-");
    WordCode(a);
    assert |Lower(x)| == |x|;
    assert x != "";
    assert ToReferralCode(b) == Lower(tail);
    assert segs != [];
    SegmentsAtRun(a, ws, b);
    JoinCons(x, segs, "-");
    assert Join(CodeSegments(a + ws + b), "-") == x + "-" + tail;
    LowerConcat(x + "-", tail);
    LowerConcat(x, "-");
    assert Lower("-") == "-";
  }

  /** The segments of a word, a run of whitespace and a rest are the word's
      segment followed by the rest's. */
  lemma SegmentsAtRun(a: string, ws: string, b: string)
    requires NoWhitespace(a) && StripPart(a) != ""
    requires ws != [] && AllWhitespace(ws)
    requires b == [] || !IsJsWhitespace(b[0])
    ensures CodeSegments(a + ws + b) == [StripPart(a)] + CodeSegments(b)
  {
    var x := StripPart(a);
    SplitAtRun(a, ws, b);
    var rest := SplitOnWhitespace(b);
    MapConcat(StripPart, [a], rest);
    assert Map(StripPart, [a]) == [x];
    FilterConcat(IsNonEmpty, [x], Map(StripPart, rest));
    assert Filter(IsNonEmpty, [x]) == [x];
  }

  /** Two words of kept characters separated by one space become the two
      words lower-cased with a hyphen between them. */
  lemma TwoWords(a: string, b: string)
    requires a != [] && forall i :: 0 <= i < |a| ==> IsWordChar(a[i])
    requires b != [] && forall i :: 0 <= i < |b| ==> IsWordChar(b[i])
    ensures ToReferralCode(a + " " + b) == Lower(a) + "-" + Lower(b)
  {
    KeptWord(a);
    KeptWord(b);
    CodeSplitsAtRun(a, " ", b);
  }

  /** The case the hyphen exists for: a first and last name. */
  lemma FirstAndLastName(name: string)
    requires name == "Jane Doe"
    ensures ToReferralCode(name) == "jane-doe"
  {
    var a, b := name[..4], name[5..];
    assert name == a + " " + b;
    assert |b| == 3 && b[0] == 'D' && b[1] == 'o' && b[2] == 'e';
    TwoWords(a, b);
    LowerWord(a, "jane");
    LowerWord(b, "doe");
  }

  lemma LowerWord(a: string, lowered: string)
    requires |a| == |lowered|
    requires forall i :: 0 <= i < |a| ==> AsciiLower(a[i]) == lowered[i]
    ensures Lower(a) == lowered
  {
  }

  /** A word made only of kept characters is its own segment. */
  lemma KeptWord(a: string)
    requires forall i :: 0 <= i < |a| ==> IsWordChar(a[i])
    ensures ToReferralCode(a) == Lower(a)
  {
    assert NoWhitespace(a);
    WordCode(a);
    FilterKeepsAll(IsReferralChar, a);
  }

  /** Reading a referral code without its hyphens gives the input's letters,
      digits and underscores, lower-cased and in their original order:
      nothing else of the input survives, and nothing is reordered. */
  lemma ReferralCodeKeepsWordChars(s: string)
    ensures Filter(IsNotHyphen, ToReferralCode(s)) == Lower(Filter(IsWordChar, s))
  {
    var joined := Join(CodeSegments(s), "-");
    DropHyphensLower(joined);
    DropHyphensJoin(s);
    SplitKeepsWordChars(s);
  }

  lemma DropHyphensLower(x: string)
    ensures Filter(IsNotHyphen, Lower(x)) == Lower(Filter(IsNotHyphen, x))
  {
    FilterMap(IsNotHyphen, AsciiLower, IsNotHyphen, x);
  }

  /** Without hyphens, the joined segments are the word characters of the
      whitespace-separated pieces. */
  lemma DropHyphensJoin(s: string)
    ensures Filter(IsNotHyphen, Join(CodeSegments(s), "-")) == Filter(IsWordChar, Flatten(SplitOnWhitespace(s)))
  {
    var pieces := SplitOnWhitespace(s);
    var stripped := Map(StripPart, pieces);
    var parts := Filter(IsNonEmpty, stripped);
    assert parts == CodeSegments(s);
    FilterJoin(IsNotHyphen, DropHyphens, parts, "-");
    FlattenMapDropsEmpty(IsNonEmpty, DropHyphens, stripped);
    forall p ensures KeepWordChars(p) == DropHyphens(StripPart(p)) {
      FilterFilter(IsReferralChar, IsNotHyphen, IsWordChar, p);
    }
    MapCompose(StripPart, DropHyphens, KeepWordChars, pieces);
    FlattenMapFilter(IsWordChar, KeepWordChars, pieces);
  }

  lemma SplitKeepsWordChars(s: string)
    ensures Filter(IsWordChar, Flatten(SplitOnWhitespace(s))) == Filter(IsWordChar, s)
  {
    SplitFlattens(s);
    FilterFilter(NotWhitespace, IsWordChar, IsWordChar, s);
  }

  function DropHyphens(s: string): string { Filter(IsNotHyphen, s) }

  function KeepWordChars(s: string): string { Filter(IsWordChar, s) }

  // ---------------------------------------------------------------------
  // Invite URLs

  const GG_PREFIX: string := "https://discord.gg/"
  const INVITE_PREFIX: string := "https://discord.com/invite/"

  /** `parseInviteURL`: the first occurrence of each invite prefix removed. */
  function ParseInviteUrl(url: string): (code: string)
    ensures !Contains(url, GG_PREFIX) && !Contains(url, INVITE_PREFIX) ==> code == url
    ensures |code| <= |url|
  {
    ReplaceFirst(ReplaceFirst(url, GG_PREFIX, ""), INVITE_PREFIX, "")
  }

  /** An invite code behind the short prefix comes back out. */
  lemma ParseShortInvite(c: string)
    requires !Contains(c, INVITE_PREFIX)
    ensures ParseInviteUrl(GG_PREFIX + c) == c
  {
    var url := GG_PREFIX + c;
    assert OccursAt(url, GG_PREFIX, 0);
    assert ReplaceFirst(url, GG_PREFIX, "") == c;
  }

  /** An invite code behind the long prefix comes back out. */
  lemma ParseLongInvite(c: string)
    requires !Contains(c, GG_PREFIX)
    ensures ParseInviteUrl(INVITE_PREFIX + c) == c
  {
    var url := INVITE_PREFIX + c;
    ShortPrefixNotInLongUrl(c);
    assert ReplaceFirst(url, GG_PREFIX, "") == url;
    assert OccursAt(url, INVITE_PREFIX, 0);
  }

  /** The short prefix cannot start inside the long one: the long prefix has
      no `h` after its first character, and at its first character the two
      prefixes part at index 16. */
  lemma ShortPrefixNotInLongUrl(c: string)
    requires !Contains(c, GG_PREFIX)
    ensures !Contains(INVITE_PREFIX + c, GG_PREFIX)
  {
    var url := INVITE_PREFIX + c;
    var n := |INVITE_PREFIX|;
    assert 'h' !in INVITE_PREFIX[1..];
    forall k | 0 <= k <= |url| ensures !OccursAt(url, GG_PREFIX, k) {
      if k + |GG_PREFIX| <= |url| {
        if k == 0 {
          assert url[k..k + |GG_PREFIX|][16] == 'c';
        } else if k < n {
          assert url[k..k + |GG_PREFIX|][0] == INVITE_PREFIX[1..][k - 1];
        } else {
          assert !OccursAt(c, GG_PREFIX, k - n);
          assert url[k..k + |GG_PREFIX|] == c[k - n..k - n + |GG_PREFIX|];
        }
      }
    }
  }

  // ---------------------------------------------------------------------
  // Eligibility

  /** `extractReferralCodes`: codes for the display name (when it differs
      from the username), the username and the tag, in that order. */
  function ExtractReferralCodes(username: string, tag: string, displayName: string): (codes: seq<string>)
    ensures |codes| == if username != displayName then 3 else 2
    ensures forall i :: 0 <= i < |codes| ==> IsReferralCode(codes[i])
    ensures username != displayName ==> codes[0] == ToReferralCode(displayName)
    ensures codes[|codes| - 2] == ToReferralCode(username)
    ensures codes[|codes| - 1] == ToReferralCode(tag)
  {
    var pieces := [username, tag];
    var pieces := if username != displayName then [displayName] + pieces else pieces;
    Map(ToReferralCode, pieces)
  }

  function IsAvailableIn(unavailable: seq<string>): string -> bool
  {
    code => code !in unavailable
  }

  /** The potential codes not already taken, in their original order. */
  function AvailableCodes(potential: seq<string>, unavailable: seq<string>): (codes: seq<string>)
    ensures forall i :: 0 <= i < |codes| ==> codes[i] in potential && codes[i] !in unavailable
    ensures forall i :: 0 <= i < |potential| && potential[i] !in unavailable ==> potential[i] in codes
  {
    Filter(IsAvailableIn(unavailable), potential)
  }

  /** Order is preserved: the available codes of two lists one after the
      other are those of the first followed by those of the second. */
  lemma AvailableCodesConcat(xs: seq<string>, ys: seq<string>, unavailable: seq<string>)
    ensures AvailableCodes(xs + ys, unavailable) == AvailableCodes(xs, unavailable) + AvailableCodes(ys, unavailable)
  {
    FilterConcat(IsAvailableIn(unavailable), xs, ys);
  }

  /** When nothing is taken, every potential code is available. */
  lemma AvailableCodesAllFree(potential: seq<string>, unavailable: seq<string>)
    requires forall i :: 0 <= i < |potential| ==> potential[i] !in unavailable
    ensures AvailableCodes(potential, unavailable) == potential
  {
    FilterKeepsAll(IsAvailableIn(unavailable), potential);
  }

  datatype Eligibility = Eligibility(
    eligible: bool,
    createdAt: bool,
    joinedAt: bool,
    referralCodes: seq<string>)

  /** `computeEligibilityStatus`. `accountAgeDays` is the whole number of days
      since the account was created; `memberAgeDays` the days since the member
      joined the server, `None` when the join date is unknown, which the
      source measures against the current date (zero days). */
  function ComputeEligibilityStatus(
    accountAgeDays: int, memberAgeDays: Option<int>,
    daysSinceCreated: int, daysSinceJoined: int,
    potential: seq<string>, unavailable: seq<string>): (r: Eligibility)
    ensures r.createdAt <==> accountAgeDays >= daysSinceCreated
    ensures r.joinedAt <==> (if memberAgeDays.Some? then memberAgeDays.value else 0) >= daysSinceJoined
    ensures r.referralCodes == AvailableCodes(potential, unavailable)
    ensures r.eligible <==>
      && accountAgeDays >= daysSinceCreated
      && (if memberAgeDays.Some? then memberAgeDays.value else 0) >= daysSinceJoined
      && exists i :: 0 <= i < |potential| && potential[i] !in unavailable
  {
    var byCreatedAt := accountAgeDays >= daysSinceCreated;
    var joinedDays := match memberAgeDays case Some(d) => d case None => 0;
    var byJoinedAt := joinedDays >= daysSinceJoined;
    var available := AvailableCodes(potential, unavailable);
    var byReferralCodes := |available| > 0;
    assert byReferralCodes ==> available[0] in potential;
    Eligibility(byCreatedAt && byJoinedAt && byReferralCodes, byCreatedAt, byJoinedAt, available)
  }
}
