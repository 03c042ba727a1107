/**
 * The pure parts of the `unban` and `banlist` commands: how the text a moderator types is
 * matched against the guild's ban list, how the ban list is cut into pages of five, how
 * entries are numbered, and how the arrow reactions move between pages.
 */
module BanList {
  import opened Wrappers
  import opened Seqs
  import Storage

  datatype User = User(id: Storage.UserId, name: string)

  /** An entry of `guild.bans()`. */
  datatype BanEntry = BanEntry(user: User, reason: Option<string>)

  // ---------------------------------------------------------------- unban: which entry is meant

  /** The characters `str.strip("<@!>")` removes from both ends of a mention such as `<@!123>`. */
  predicate IsMentionChar(c: char) {
    c == '<' || c == '@' || c == '!' || c == '>'
  }

  function TrimStart(s: string): (r: string)
    ensures |r| <= |s| && r == s[|s| - |r|..]
    ensures r == [] || !IsMentionChar(r[0])
    ensures forall k :: 0 <= k < |s| - |r| ==> IsMentionChar(s[k])
  {
    if s != [] && IsMentionChar(s[0]) then
      var t := s[1..];
      var r := TrimStart(t);
      assert t[|t| - |r|..] == s[|s| - |r|..];
      assert forall k :: 1 <= k < |s| - |r| ==> s[k] == t[k - 1];
      r
    else
      s
  }

  function TrimEnd(s: string): (r: string)
    ensures |r| <= |s| && r == s[..|r|]
    ensures r == [] || !IsMentionChar(r[|r| - 1])
    ensures forall k :: |r| <= k < |s| ==> IsMentionChar(s[k])
  {
    if s != [] && IsMentionChar(s[|s| - 1]) then
      var t := s[..|s| - 1];
      var r := TrimEnd(t);
      assert t[..|r|] == s[..|r|];
      assert forall k :: |r| <= k < |t| ==> s[k] == t[k];
      r
    else
      s
  }

  /** `user_input.strip("<@!>")`. */
  function StripMention(s: string): string {
    TrimEnd(TrimStart(s))
  }

  /** The stripped input neither starts nor ends with a mention character, and is empty exactly
      when the input is made of mention characters only. */
  lemma StripMentionEnds(s: string)
    ensures |StripMention(s)| <= |s|
    ensures StripMention(s) == [] || (!IsMentionChar(StripMention(s)[0]) && !IsMentionChar(StripMention(s)[|StripMention(s)| - 1]))
    ensures StripMention(s) == [] <==> forall k :: 0 <= k < |s| ==> IsMentionChar(s[k])
  {
    var t := TrimStart(s);
    var r := TrimEnd(t);
    assert r != [] ==> r[0] == t[0];
    assert r == [] ==> t == [];
  }

  predicate IsDigit(c: char) {
    '0' <= c <= '9'
  }

  predicate AllDigits(s: string) {
    forall k :: 0 <= k < |s| ==> IsDigit(s[k])
  }

  function DigitValue(c: char): nat
    requires IsDigit(c)
  {
    c as int - '0' as int
  }

  /** The value of a string of decimal digits, read left to right. */
  function DigitsValue(s: string): nat
    requires AllDigits(s)
  {
    if s == [] then 0 else DigitsValue(s[..|s| - 1]) * 10 + DigitValue(s[|s| - 1])
  }

  /** `int(s)` on an optionally signed string of ASCII digits; `None` stands for `ValueError`. */
  function ParseInt(s: string): (r: Option<int>)
    ensures r.Some? <==> (s != [] && AllDigits(s)) || (|s| >= 2 && (s[0] == '-' || s[0] == '+') && AllDigits(s[1..]))
    ensures AllDigits(s) && s != [] ==> r == Some(DigitsValue(s))
    ensures |s| >= 2 && s[0] == '-' && AllDigits(s[1..]) ==> r == Some(-(DigitsValue(s[1..]) as int))
    ensures |s| >= 2 && s[0] == '+' && AllDigits(s[1..]) ==> r == Some(DigitsValue(s[1..]))
  {
    if |s| >= 2 && (s[0] == '-' || s[0] == '+') && AllDigits(s[1..]) then
      var magnitude: int := DigitsValue(s[1..]);
      Some(if s[0] == '-' then -magnitude else magnitude)
    else if s != [] && AllDigits(s) then
      Some(DigitsValue(s))
    else
      None
  }

  /** The decimal spelling of a snowflake id, as it appears inside a mention. */
  function Decimal(n: nat): (s: string)
    ensures s != []
  {
    var d := ['0' + (n % 10) as char];
    if n < 10 then d else Decimal(n / 10) + d
  }

  /** Reading back the decimal spelling of `n` gives `n`. */
  lemma {:induction false} DecimalRoundTrip(n: nat)
    ensures AllDigits(Decimal(n)) && DigitsValue(Decimal(n)) == n
  {
    var s := Decimal(n);
    if n >= 10 {
      DecimalRoundTrip(n / 10);
      assert s[..|s| - 1] == Decimal(n / 10);
    }
  }

  /** Stripping skips a leading run of mention characters and stops at the first other one. */
  lemma {:induction false} TrimStartPrefix(p: string, t: string)
    requires forall k :: 0 <= k < |p| ==> IsMentionChar(p[k])
    requires t == [] || !IsMentionChar(t[0])
    ensures TrimStart(p + t) == t
  {
    if p != [] {
      assert (p + t)[1..] == p[1..] + t;
      TrimStartPrefix(p[1..], t);
    } else {
      assert p + t == t;
    }
  }

  lemma {:induction false} TrimEndSuffix(t: string, q: string)
    requires forall k :: 0 <= k < |q| ==> IsMentionChar(q[k])
    requires t == [] || !IsMentionChar(t[|t| - 1])
    ensures TrimEnd(t + q) == t
  {
    if q != [] {
      assert (t + q)[..|t + q| - 1] == t + q[..|q| - 1];
      TrimEndSuffix(t, q[..|q| - 1]);
    } else {
      assert t + q == t;
    }
  }

  /** A mention `<@id>` or `<@!id>` of a user is read back as that user's id. */
  lemma MentionResolves(n: nat, nickname: bool)
    ensures ParseInt(StripMention((if nickname then "<@!" else "<@") + Decimal(n) + ">")) == Some(n)
  {
    var d := Decimal(n);
    DecimalRoundTrip(n);
    assert !IsMentionChar(d[0]) && !IsMentionChar(d[|d| - 1]) by {
      assert IsDigit(d[0]) && IsDigit(d[|d| - 1]);
    }
    var prefix := if nickname then "<@!" else "<@";
    assert prefix + d + ">" == prefix + (d + ">");
    TrimStartPrefix(prefix, d + ">");
    TrimEndSuffix(d, ">");
    assert StripMention(prefix + d + ">") == d;
    assert ParseInt(d) == Some(DigitsValue(d));
  }

  /** `c.lower()` restricted to ASCII letters. */
  function LowerChar(c: char): char {
    if 'A' <= c <= 'Z' then (c as int - 'A' as int + 'a' as int) as char else c
  }

  function Lower(s: string): string {
    seq(|s|, i requires 0 <= i < |s| => LowerChar(s[i]))
  }

  /** Lower-casing keeps the length, leaves no ASCII capital and touches nothing else. */
  lemma LowerFolds(s: string)
    ensures |Lower(s)| == |s|
    ensures forall i :: 0 <= i < |s| ==> !('A' <= Lower(s)[i] <= 'Z')
    ensures forall i :: 0 <= i < |s| && !('A' <= s[i] <= 'Z') ==> Lower(s)[i] == s[i]
    ensures forall i :: 0 <= i < |s| && 'A' <= s[i] <= 'Z' ==> Lower(s)[i] as int == s[i] as int - 'A' as int + 'a' as int
  {
  }

  /** Two characters that are equal up to ASCII case. */
  predicate SameLetterIgnoringCase(a: char, b: char) {
    a == b
    || ('A' <= a <= 'Z' && b as int == a as int - 'A' as int + 'a' as int)
    || ('A' <= b <= 'Z' && a as int == b as int - 'A' as int + 'a' as int)
  }

  /** Two names match after lower-casing exactly when they have the same length and agree
      character by character up to ASCII case. */
  lemma LowerMatches(s: string, t: string)
    ensures Lower(s) == Lower(t) <==>
              |s| == |t| && forall i :: 0 <= i < |s| ==> SameLetterIgnoringCase(s[i], t[i])
  {
    if Lower(s) == Lower(t) {
      assert |s| == |Lower(s)| == |Lower(t)| == |t|;
      forall i | 0 <= i < |s|
        ensures SameLetterIgnoringCase(s[i], t[i])
      {
        assert Lower(s)[i] == Lower(t)[i];
        assert LowerChar(s[i]) == LowerChar(t[i]);
      }
    }
    if |s| == |t| && forall i :: 0 <= i < |s| ==> SameLetterIgnoringCase(s[i], t[i]) {
      forall i | 0 <= i < |s|
        ensures Lower(s)[i] == Lower(t)[i]
      {
        assert SameLetterIgnoringCase(s[i], t[i]);
      }
    }
  }

  function HasUserId(id: int): BanEntry -> bool {
    (e: BanEntry) => e.user.id == id
  }

  function HasName(lowered: string): BanEntry -> bool {
    (e: BanEntry) => Lower(e.user.name) == lowered
  }

  /** The position in the ban list of the entry `unban` lifts: the first entry whose id is the
      input stripped of mention characters, else the first whose name equals the input ignoring
      case, else none. */
  function UnbanTarget(bans: seq<BanEntry>, input: string): (r: Option<nat>)
    ensures r.Some? ==> r.value < |bans|
    ensures r.Some? ==> ParseInt(StripMention(input)) == Some(bans[r.value].user.id)
                        || Lower(bans[r.value].user.name) == Lower(input)
    ensures r.None? ==> forall k :: 0 <= k < |bans| ==>
                          ParseInt(StripMention(input)) != Some(bans[k].user.id)
                          && Lower(bans[k].user.name) != Lower(input)
  {
    var byId := match ParseInt(StripMention(input))
      case Some(id) => FindFirst(bans, HasUserId(id))
      case None => None;
    if byId.Some? then byId else FindFirst(bans, HasName(Lower(input)))
  }

  /** The first entry carrying the id spelled by the input is the one unbanned. */
  lemma UnbanById(bans: seq<BanEntry>, input: string, i: nat)
    requires ParseInt(StripMention(input)).Some?
    requires i < |bans| && bans[i].user.id == ParseInt(StripMention(input)).value
    requires forall k :: 0 <= k < i ==> bans[k].user.id != ParseInt(StripMention(input)).value
    ensures UnbanTarget(bans, input) == Some(i)
  {
    var id := ParseInt(StripMention(input)).value;
    var r := FindFirst(bans, HasUserId(id));
    assert HasUserId(id)(bans[i]);
  }

  /** When no entry carries the id, the first entry whose name matches ignoring case is unbanned. */
  lemma UnbanByName(bans: seq<BanEntry>, input: string, j: nat)
    requires ParseInt(StripMention(input)).Some? ==>
               forall k :: 0 <= k < |bans| ==> bans[k].user.id != ParseInt(StripMention(input)).value
    requires j < |bans| && Lower(bans[j].user.name) == Lower(input)
    requires forall k :: 0 <= k < j ==> Lower(bans[k].user.name) != Lower(input)
    ensures UnbanTarget(bans, input) == Some(j)
  {
    match ParseInt(StripMention(input)) {
      case Some(id) =>
        var byId := FindFirst(bans, HasUserId(id));
        assert byId.None?;
      case None =>
    }
    var r := FindFirst(bans, HasName(Lower(input)));
    assert HasName(Lower(input))(bans[j]);
    assert r == Some(j);
  }

  /** With neither an id nor a name match, nothing is unbanned. */
  lemma UnbanNoMatch(bans: seq<BanEntry>, input: string)
    requires ParseInt(StripMention(input)).Some? ==>
               forall k :: 0 <= k < |bans| ==> bans[k].user.id != ParseInt(StripMention(input)).value
    requires forall k :: 0 <= k < |bans| ==> Lower(bans[k].user.name) != Lower(input)
    ensures UnbanTarget(bans, input) == None
  {
  }

  // ---------------------------------------------------------------- banlist: pages and numbering

  const PAGE_SIZE := 5

  /** `[bans[i:i + 5] for i in range(0, len(bans), 5)]`. */
  function Pages<T>(s: seq<T>): (r: seq<seq<T>>)
    ensures |r| == (|s| + PAGE_SIZE - 1) / PAGE_SIZE
    ensures forall k :: 0 <= k < |r| ==> 0 < |r[k]| <= PAGE_SIZE
    decreases |s|
  {
    if s == [] then []
    else if |s| <= PAGE_SIZE then [s]
    else [s[..PAGE_SIZE]] + Pages(s[PAGE_SIZE..])
  }

  function Concat<T>(pages: seq<seq<T>>): seq<T> {
    if pages == [] then [] else pages[0] + Concat(pages[1..])
  }

  /** There are ceil(n / 5) pages, and reading them one after the other gives back the list. */
  lemma {:induction false} PagesPartition<T>(s: seq<T>)
    ensures |Pages(s)| == (|s| + PAGE_SIZE - 1) / PAGE_SIZE
    ensures Concat(Pages(s)) == s
  {
    if |s| > PAGE_SIZE {
      PagesPartition(s[PAGE_SIZE..]);
      var ps := Pages(s);
      assert ps[0] == s[..PAGE_SIZE] && ps[1..] == Pages(s[PAGE_SIZE..]);
      assert s[..PAGE_SIZE] + s[PAGE_SIZE..] == s;
    } else if s != [] {
      assert Pages(s)[1..] == [];
    }
  }

  /** Page `k` holds the entries at positions 5k up to 5k + 4, so every page but the last is full
      and no page is empty. */
  lemma {:induction false} PageContents<T>(s: seq<T>, k: nat)
    requires k < |Pages(s)|
    ensures 0 < |Pages(s)[k]| <= PAGE_SIZE
    ensures k < |Pages(s)| - 1 ==> |Pages(s)[k]| == PAGE_SIZE
    ensures k * PAGE_SIZE + |Pages(s)[k]| <= |s|
    ensures forall i :: 0 <= i < |Pages(s)[k]| ==> Pages(s)[k][i] == s[k * PAGE_SIZE + i]
  {
    if |s| > PAGE_SIZE && k > 0 {
      var rest := s[PAGE_SIZE..];
      PageContents(rest, k - 1);
      assert Pages(s)[k] == Pages(rest)[k - 1];
      assert |Pages(s)| == |Pages(rest)| + 1;
      forall i | 0 <= i < |Pages(s)[k]|
        ensures Pages(s)[k][i] == s[k * PAGE_SIZE + i]
      {
        assert rest[(k - 1) * PAGE_SIZE + i] == s[k * PAGE_SIZE + i];
      }
    }
  }

  /** A line of the ban-list embed: `"{number}. {user} ({user.id})"` and its reason. */
  datatype NumberedBan = NumberedBan(number: int, user: User, reason: string)

  /** `entry.reason or "No reason provided"`: an empty reason counts as missing. */
  function ReasonText(reason: Option<string>): (t: string)
    ensures t != []
    ensures reason.Some? && reason.value != [] ==> t == reason.value
    ensures reason.None? || reason.value == [] ==> t == "No reason provided"
  {
    if reason.None? || reason.value == "" then "No reason provided" else reason.value
  }

  /** The fields of `build_banlist_embed(pages, index)`, numbered from `1 + index * 5`. */
  function PageLines(pages: seq<seq<BanEntry>>, index: nat): (lines: seq<NumberedBan>)
    requires index < |pages|
    ensures |lines| == |pages[index]|
    ensures forall i :: 0 <= i < |lines| ==>
              lines[i].user == pages[index][i].user && lines[i].reason == ReasonText(pages[index][i].reason)
    ensures forall i :: 0 <= i < |lines| ==> lines[i].number == 1 + index * PAGE_SIZE + i
  {
    var page := pages[index];
    seq(|page|, i requires 0 <= i < |page| =>
      NumberedBan(1 + index * PAGE_SIZE + i, page[i].user, ReasonText(page[i].reason)))
  }

  /** The number printed before a banned user is that user's position in the whole ban list,
      counted from 1, whatever page it is on. */
  lemma BanlistNumbering(bans: seq<BanEntry>, index: nat, i: nat)
    requires index < |Pages(bans)| && i < |Pages(bans)[index]|
    ensures 1 <= PageLines(Pages(bans), index)[i].number <= |bans|
    ensures bans[PageLines(Pages(bans), index)[i].number - 1].user == PageLines(Pages(bans), index)[i].user
  {
    PageContents(bans, index);
  }

  // ---------------------------------------------------------------- banlist: arrow navigation

  datatype Arrow = LeftArrow | RightArrow

  /** One reaction: the new page index, or `None` when the arrow would leave the pages (the
      reaction is only removed). */
  function Step(index: int, pageCount: int, arrow: Arrow): (r: Option<int>)
    ensures r.Some? ==> (arrow == RightArrow && r.value == index + 1) || (arrow == LeftArrow && r.value == index - 1)
    ensures r.None? <==> (arrow == RightArrow && index >= pageCount - 1) || (arrow == LeftArrow && index <= 0)
    ensures 0 <= index < pageCount && r.Some? ==> 0 <= r.value < pageCount
  {
    if arrow == RightArrow && index < pageCount - 1 then Some(index + 1)
    else if arrow == LeftArrow && index > 0 then Some(index - 1)
    else
      assert arrow.RightArrow? || arrow.LeftArrow?;
      None
  }

  /** The page shown after a sequence of reactions, starting from the first page. */
  function Walk(pageCount: int, arrows: seq<Arrow>): (index: int)
    ensures 0 <= index <= |arrows|
  {
    if arrows == [] then 0
    else
      var before := Walk(pageCount, arrows[..|arrows| - 1]);
      match Step(before, pageCount, arrows[|arrows| - 1])
      case Some(next) => next
      case None => before
  }

  /** However the moderator reacts, the index stays on an existing page. */
  lemma {:induction false} WalkInBounds(pageCount: int, arrows: seq<Arrow>)
    requires pageCount >= 1
    ensures 0 <= Walk(pageCount, arrows) < pageCount
  {
    if arrows != [] {
      var before := Walk(pageCount, arrows[..|arrows| - 1]);
      WalkInBounds(pageCount, arrows[..|arrows| - 1]);
      var r := Step(before, pageCount, arrows[|arrows| - 1]);
      assert r.Some? ==> 0 <= r.value < pageCount;
    }
  }
}
