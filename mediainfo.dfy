// The whitelist/blacklist filter that decides whether a media-information
// file is downloaded. Each keyword automaton is modelled by the keywords it
// holds: lower-cased keyword to the original keyword stored with it. The
// match an automaton reports first is the one that ends earliest in the
// text, and of those the longest, which is the order in which an
// Aho-Corasick automaton reports its matches.

module Mediainfo {
  import opened Wrappers
  import opened Strings

  /** A keyword automaton: lower-cased keyword to the original keyword. */
  datatype Automaton = Automaton(words: map<string, string>)

  /** A keyword that is its own lower case. */
  predicate LowerCased(w: string) {
    Lower(w) == w
  }

  lemma {:induction false} LowerIdempotent(s: string)
    ensures Lower(Lower(s)) == Lower(s)
  {
    assert forall i | 0 <= i < |s| :: LowerChar(LowerChar(s[i])) == LowerChar(s[i]);
  }

  /**
   * `build_automaton`: every non-empty keyword added under its lower case; a
   * later keyword with the same lower case replaces the stored original.
   */
  function BuildAutomaton(value: seq<string>): (a: Automaton)
    ensures forall w | w in a.words :: w != "" && LowerCased(w)
    ensures forall i | 0 <= i < |value| && value[i] != "" :: Lower(value[i]) in a.words
    decreases |value|
  {
    if value == [] then Automaton(map[])
    else
      var a := BuildAutomaton(value[..|value| - 1]);
      var k := value[|value| - 1];
      if k == "" then a
      else
        LowerIdempotent(k);
        assert forall i | 0 <= i < |value| - 1 :: value[i] == value[..|value| - 1][i];
        Automaton(a.words[Lower(k) := k])
  }

  /** An automaton is truthy when it holds at least one keyword. */
  predicate Empty(a: Automaton) {
    a.words == map[]
  }

  /** The `l` characters of `s` ending at position `e` form a keyword. */
  predicate KeyEndsAt(s: string, e: nat, l: nat, words: map<string, string>)
    requires l <= e <= |s|
  {
    s[e - l..e] in words
  }

  /** The longest keyword of at most `len` characters that ends at position `e` of `s`. */
  function LongestEndingAt(s: string, e: nat, words: map<string, string>, len: nat): (r: Option<string>)
    requires len <= e <= |s|
    ensures r.Some? ==> r.value in words && 1 <= |r.value| <= len && s[e - |r.value|..e] == r.value
    ensures r.None? ==> forall l | 1 <= l <= len :: !KeyEndsAt(s, e, l, words)
    decreases len
  {
    if len == 0 then None
    else if KeyEndsAt(s, e, len, words) then Some(s[e - len..e])
    else LongestEndingAt(s, e, words, len - 1)
  }

  /** The first match among the end positions `e` and after: the earliest end, then the longest keyword. */
  function FirstMatchFrom(s: string, words: map<string, string>, e: nat): (r: Option<string>)
    requires e <= |s| + 1
    ensures r.Some? ==> r.value in words && Contains(s, r.value)
    decreases |s| + 1 - e
  {
    if e > |s| then None
    else
      var m := LongestEndingAt(s, e, words, e);
      if m.Some? then
        assert OccursAt(s, m.value, e - |m.value|);
        m
      else FirstMatchFrom(s, words, e + 1)
  }

  /** `next(automaton.iter(text))`: the keyword of the first match, if any. */
  function FirstMatch(s: string, a: Automaton): Option<string> {
    FirstMatchFrom(s, a.words, 0)
  }

  /** Some keyword of the automaton occurs in the text. */
  predicate AnyOccurs(s: string, a: Automaton) {
    exists w | w in a.words :: Contains(s, w)
  }

  /** A keyword that ends at or after position `e` is found by the search from `e`. */
  lemma {:induction false} FirstMatchFromFinds(s: string, words: map<string, string>, e: nat, w: string, i: int)
    requires e <= |s| + 1
    requires w in words && w != "" && OccursAt(s, w, i) && i + |w| >= e
    ensures FirstMatchFrom(s, words, e).Some?
    decreases |s| + 1 - e
  {
    if i + |w| == e {
      assert s[e - |w|..e] == w;
      assert KeyEndsAt(s, e, |w|, words);
    } else if LongestEndingAt(s, e, words, e).None? {
      FirstMatchFromFinds(s, words, e + 1, w, i);
    }
  }

  /** The automaton reports a match exactly when one of its keywords occurs in the text. */
  lemma {:induction false} FirstMatchExists(s: string, a: Automaton)
    requires forall w | w in a.words :: w != ""
    ensures FirstMatch(s, a).Some? <==> AnyOccurs(s, a)
    ensures FirstMatch(s, a).Some? ==> FirstMatch(s, a).value in a.words && Contains(s, FirstMatch(s, a).value)
  {
    if AnyOccurs(s, a) {
      var w :| w in a.words && Contains(s, w);
      var i :| OccursAt(s, w, i);
      FirstMatchFromFinds(s, a.words, 0, w, i);
    }
  }

  /** A verdict: the message and whether the file may be downloaded. */
  type Verdict = (string, bool)

  const BlacklistHit: string := "匹配到黑名单关键词 "
  const WhitelistHit: string := "匹配到白名单关键词 "
  const NotInWhitelist: string := " 不在生成白名单内"

  /** `not_blacklist_key`: refused when a blacklist keyword occurs in the lower-cased name. */
  function NotBlacklistKey(filename: string, blacklist: Automaton): (r: Verdict)
    ensures Empty(blacklist) ==> r == ("", true)
  {
    if Empty(blacklist) then ("", true)
    else
      var m := FirstMatch(Lower(filename), blacklist);
      if m.Some? then (BlacklistHit + blacklist.words[m.value], false) else ("", true)
  }

  /** `not_whitelist_key`: accepted when a whitelist keyword occurs in the lower-cased name. */
  function NotWhitelistKey(filename: string, whitelist: Automaton): (r: Verdict)
    ensures Empty(whitelist) ==> r == ("", true)
  {
    if Empty(whitelist) then ("", true)
    else
      var m := FirstMatch(Lower(filename), whitelist);
      if m.Some? then (WhitelistHit + whitelist.words[m.value], true)
      else (filename + NotInWhitelist, false)
  }

  /** `should_download`: the whitelist first, then the blacklist. */
  function ShouldDownload(filename: string, blacklist: Automaton, whitelist: Automaton): Verdict {
    var w := NotWhitelistKey(filename, whitelist);
    if !w.1 then w
    else
      var b := NotBlacklistKey(filename, blacklist);
      if !b.1 then b else ("", true)
  }

  /** Both lists empty: always downloaded, with no message. */
  lemma {:induction false} NoListsAllowAll(filename: string)
    ensures ShouldDownload(filename, Automaton(map[]), Automaton(map[])) == ("", true)
  {
  }

  /**
   * The file is downloaded exactly when the whitelist is empty or matches,
   * and the blacklist is empty or does not match.
   */
  lemma {:induction false} ShouldDownloadVerdict(filename: string, blacklist: Automaton, whitelist: Automaton)
    requires forall w | w in blacklist.words :: w != ""
    requires forall w | w in whitelist.words :: w != ""
    ensures ShouldDownload(filename, blacklist, whitelist).1 <==>
      (Empty(whitelist) || AnyOccurs(Lower(filename), whitelist)) &&
      (Empty(blacklist) || !AnyOccurs(Lower(filename), blacklist))
  {
    FirstMatchExists(Lower(filename), whitelist);
    FirstMatchExists(Lower(filename), blacklist);
  }

  /** A whitelist that does not match refuses the file with its own message, whatever the blacklist says. */
  lemma {:induction false} WhitelistCheckedFirst(filename: string, blacklist: Automaton, whitelist: Automaton)
    requires forall w | w in whitelist.words :: w != ""
    requires !Empty(whitelist) && !AnyOccurs(Lower(filename), whitelist)
    ensures ShouldDownload(filename, blacklist, whitelist) == (filename + NotInWhitelist, false)
  {
    FirstMatchExists(Lower(filename), whitelist);
  }

  /** A blacklist match, with the whitelist passed, refuses the file and names a blacklisted keyword. */
  lemma {:induction false} BlacklistRefuses(filename: string, blacklist: Automaton, whitelist: Automaton)
    requires forall w | w in blacklist.words :: w != ""
    requires NotWhitelistKey(filename, whitelist).1
    requires AnyOccurs(Lower(filename), blacklist)
    ensures var r := ShouldDownload(filename, blacklist, whitelist);
      !r.1 && exists w | w in blacklist.words :: r.0 == BlacklistHit + blacklist.words[w] && Contains(Lower(filename), w)
  {
    FirstMatchExists(Lower(filename), blacklist);
    var m := FirstMatch(Lower(filename), blacklist).value;
    assert ShouldDownload(filename, blacklist, whitelist).0 == BlacklistHit + blacklist.words[m];
  }

  /**
   * Matching ignores case: a keyword given in any case, occurring in any
   * case in the file name, puts the file on the blacklist.
   */
  lemma {:induction false} BlacklistIgnoresCase(filename: string, keywords: seq<string>, whitelist: Automaton, k: int)
    requires 0 <= k < |keywords| && keywords[k] != ""
    requires NotWhitelistKey(filename, whitelist).1
    requires Contains(Lower(filename), Lower(keywords[k]))
    ensures !ShouldDownload(filename, BuildAutomaton(keywords), whitelist).1
  {
    var a := BuildAutomaton(keywords);
    assert Lower(keywords[k]) in a.words;
    FirstMatchExists(Lower(filename), a);
  }

  /** The verdict depends on the file name only through its lower case. */
  lemma {:induction false} VerdictIgnoresCase(filename: string, blacklist: Automaton, whitelist: Automaton)
    ensures ShouldDownload(filename, blacklist, whitelist).1 == ShouldDownload(Lower(filename), blacklist, whitelist).1
  {
    LowerIdempotent(filename);
  }
}
