/**
 * Model of the prompt-building helpers in src/utils/text_utils.py: the token
 * counter with its length-based fallback, the trimming of a conversation to
 * the lines at its end that fit a token budget, and the user-context line.
 */
module TextUtils {
  import opened Wrappers
  import opened Strings

  // ---------------------------------------------------------------------------
  // TokenCounter.count
  // ---------------------------------------------------------------------------

  /**
   * A `TokenCounter`. `encoder` is the tiktoken encoding when it could be
   * loaded; applied to a text it gives the number of tokens, or `None` when
   * encoding raises. The encoding itself is not part of this model.
   */
  datatype TokenCounter = TokenCounter(encoder: Option<string -> Option<nat>>)

  /**
   * `TokenCounter.count`: no tokens in the empty text; otherwise the encoder's
   * count, or a quarter of the length (rounded down) when there is no encoder
   * or it raises.
   */
  function Count(counter: TokenCounter, text: string): (n: nat)
    ensures text == [] ==> n == 0
    ensures counter.encoder.None? || counter.encoder.value(text).None? ==> 4 * n <= |text| < 4 * n + 4
    ensures text != [] && counter.encoder.Some? && counter.encoder.value(text).Some? ==>
      n == counter.encoder.value(text).value
  {
    if text == [] then 0
    else
      match counter.encoder
      case None => |text| / 4
      case Some(encode) =>
        match encode(text)
        case Some(tokens) => tokens
        case None => |text| / 4
  }

  // ---------------------------------------------------------------------------
  // limit_conversation_context
  // ---------------------------------------------------------------------------

  /** The token counts of `lines`, added up. */
  function CountAll(counter: TokenCounter, lines: seq<string>): nat {
    if lines == [] then 0 else Count(counter, lines[0]) + CountAll(counter, lines[1..])
  }

  /** One more line in front adds its own count. */
  lemma CountAllCons(counter: TokenCounter, lines: seq<string>, i: nat)
    requires 0 < i <= |lines|
    ensures CountAll(counter, lines[i - 1..]) == Count(counter, lines[i - 1]) + CountAll(counter, lines[i..])
  {
    assert lines[i - 1..][1..] == lines[i..];
  }

  /** A longer run of lines at the end never counts fewer tokens. */
  lemma {:induction false} CountAllMonotone(counter: TokenCounter, lines: seq<string>, j: nat, k: nat)
    requires j <= k <= |lines|
    ensures CountAll(counter, lines[k..]) <= CountAll(counter, lines[j..])
    decreases k - j
  {
    if j < k {
      CountAllCons(counter, lines, j + 1);
      CountAllMonotone(counter, lines, j + 1, k);
    }
  }

  /**
   * Where the kept lines begin when the backward scan has kept the lines from
   * `i` on: the line before them is kept too if the lines from it on still fit
   * the budget, and the scan stops at the first line that does not.
   */
  function KeptFrom(counter: TokenCounter, lines: seq<string>, maxTokens: int, i: nat): (start: nat)
    requires i <= |lines|
    ensures start <= i
    decreases i
  {
    if i == 0 || CountAll(counter, lines[i - 1..]) > maxTokens then i
    else KeptFrom(counter, lines, maxTokens, i - 1)
  }

  /**
   * The lines kept fit the budget (unless none is kept), and every longer run
   * of lines at the end does not: the kept lines are the longest run at the
   * end that fits.
   */
  lemma {:induction false} KeptFromFits(counter: TokenCounter, lines: seq<string>, maxTokens: int, i: nat)
    requires i <= |lines|
    requires i == |lines| || CountAll(counter, lines[i..]) <= maxTokens
    ensures
      var start := KeptFrom(counter, lines, maxTokens, i);
      && (start == |lines| || CountAll(counter, lines[start..]) <= maxTokens)
      && forall j | 0 <= j < start :: CountAll(counter, lines[j..]) > maxTokens
    decreases i
  {
    var start := KeptFrom(counter, lines, maxTokens, i);
    if i == 0 || CountAll(counter, lines[i - 1..]) > maxTokens {
      forall j | 0 <= j < start ensures CountAll(counter, lines[j..]) > maxTokens {
        CountAllMonotone(counter, lines, j, i - 1);
      }
    } else {
      KeptFromFits(counter, lines, maxTokens, i - 1);
    }
  }

  /**
   * `limit_conversation_context`: the text itself when it fits the budget;
   * otherwise the longest run of its lines at the end whose counts add up to
   * at most `maxTokens`, joined with newlines again, which is a suffix of the
   * text.
   */
  method LimitConversationContext(convText: string, maxTokens: int, counter: TokenCounter) returns (r: string)
    ensures Count(counter, convText) <= maxTokens ==> r == convText
    ensures Count(counter, convText) > maxTokens ==>
      var lines := Split(convText, "\n");
      r == Join(lines[KeptFrom(counter, lines, maxTokens, |lines|)..], "\n")
    ensures IsSuffix(r, convText)
  {
    var tokens := Count(counter, convText);
    if tokens <= maxTokens {
      return convText;
    }

    var lines := Split(convText, "\n");
    var limited: seq<string> := [];
    var current := 0;
    var i := |lines|;
    while i > 0
      invariant 0 <= i <= |lines|
      invariant limited == lines[i..]
      invariant current == CountAll(counter, lines[i..])
      invariant KeptFrom(counter, lines, maxTokens, i) == KeptFrom(counter, lines, maxTokens, |lines|)
    {
      var line := lines[i - 1];
      var lineTokens := Count(counter, line);
      CountAllCons(counter, lines, i);
      if current + lineTokens <= maxTokens {
        limited := [line] + limited;
        current := current + lineTokens;
        i := i - 1;
      } else {
        break;
      }
    }
    r := Join(limited, "\n");
    SplitJoin(convText, "\n");
    JoinSuffix(lines, i, "\n");
  }

  // ---------------------------------------------------------------------------
  // build_user_context
  // ---------------------------------------------------------------------------

  const Registered: string := "registered"
  const NotRegistered: string := "not " + Registered + " (can chat but needs to register for errands)"
  const Whitelisted: string := "whitelisted"
  const NotWhitelisted: string := "not " + Whitelisted + " (needs activation code for errands)"

  /** The registration status text: it starts with "registered" exactly for a registered user. */
  function RegistrationStatus(isRegistered: bool): (status: string)
    ensures isRegistered <==> Registered <= status
  {
    HeadOfConcat("not ", Registered);
    HeadOfConcat("not " + Registered, " (can chat but needs to register for errands)");
    if isRegistered then Registered else NotRegistered
  }

  /** The whitelist status text: it starts with "whitelisted" exactly for a whitelisted user. */
  function WhitelistStatus(isWhitelisted: bool): (status: string)
    ensures isWhitelisted <==> Whitelisted <= status
  {
    HeadOfConcat("not ", Whitelisted);
    HeadOfConcat("not " + Whitelisted, " (needs activation code for errands)");
    if isWhitelisted then Whitelisted else NotWhitelisted
  }

  /** The opening of the context line, up to the statuses. */
  function Opening(phone: string): string {
    "User: " + phone + " ("
  }

  /** The closing of the context line, after the statuses. */
  function Closing(phone: string): string {
    "). Use get_user_details for personalization. For errands, use " + phone + " as user_phone."
  }

  /** The statuses and the closing, as they follow the opening. */
  function Statuses(isRegistered: bool, isWhitelisted: bool, phone: string): string {
    RegistrationStatus(isRegistered) + (", " + (WhitelistStatus(isWhitelisted) + Closing(phone)))
  }

  /**
   * `build_user_context`: nothing for a missing or empty phone number;
   * otherwise a line that opens with the number, names both statuses and
   * closes with the number again.
   */
  function BuildUserContext(phone: Option<string>, isRegistered: bool := true, isWhitelisted: bool := false): (r: string)
    ensures r == [] <==> phone.None? || phone.value == []
    ensures phone.Some? && phone.value != [] ==>
      && Opening(phone.value) <= r
      && IsSuffix(Closing(phone.value), r)
  {
    if phone.None? || phone.value == [] then ""
    else
      var p := phone.value;
      var r := Opening(p) + Statuses(isRegistered, isWhitelisted, p);
      PrefixOfConcat(Opening(p), Statuses(isRegistered, isWhitelisted, p));
      ClosingEnds(isRegistered, isWhitelisted, p);
      SuffixOfConcat(Opening(p), Statuses(isRegistered, isWhitelisted, p));
      SuffixTransitive(Closing(p), Statuses(isRegistered, isWhitelisted, p), r);
      r
  }

  /** Reads the registration status off the front of `text`, with what follows its comma. */
  function ReadRegistration(text: string): Option<(bool, string)> {
    var registered := Registered <= text;
    if !registered && !(NotRegistered <= text) then None
    else
      var skip := |RegistrationStatus(registered)| + 2;
      if skip > |text| then None else Some((registered, text[skip..]))
  }

  /** Reads the whitelist status off the front of `text`. */
  function ReadWhitelist(text: string): Option<bool> {
    if Whitelisted <= text then Some(true)
    else if NotWhitelisted <= text then Some(false)
    else None
  }

  /** Reads the two statuses back out of a context line for `phone`. */
  function ReadStatuses(r: string, phone: string): Option<(bool, bool)> {
    var open := Opening(phone);
    if !(open <= r) then None
    else
      match ReadRegistration(r[|open|..])
      case None => None
      case Some((registered, after)) =>
        match ReadWhitelist(after)
        case None => None
        case Some(whitelisted) => Some((registered, whitelisted))
  }

  /** The statuses end with the closing. */
  lemma ClosingEnds(isRegistered: bool, isWhitelisted: bool, phone: string)
    ensures IsSuffix(Closing(phone), Statuses(isRegistered, isWhitelisted, phone))
  {
    var whitelist := WhitelistStatus(isWhitelisted) + Closing(phone);
    var comma := ", " + whitelist;
    SuffixOfConcat(WhitelistStatus(isWhitelisted), Closing(phone));
    SuffixOfConcat(", ", whitelist);
    SuffixTransitive(Closing(phone), whitelist, comma);
    SuffixOfConcat(RegistrationStatus(isRegistered), comma);
    SuffixTransitive(Closing(phone), comma, Statuses(isRegistered, isWhitelisted, phone));
  }

  /** The registration status can be read back, and what follows its comma. */
  lemma RegistrationReadBack(isRegistered: bool, tail: string)
    ensures ReadRegistration(RegistrationStatus(isRegistered) + (", " + tail)) == Some((isRegistered, tail))
  {
    var status := RegistrationStatus(isRegistered);
    var text := status + (", " + tail);
    PrefixOfConcat(status, ", " + tail);
    HeadOfConcat(status, ", " + tail);
    HeadOfConcat("not ", Registered);
    HeadOfConcat("not " + Registered, " (can chat but needs to register for errands)");
    assert (Registered <= text) == isRegistered;
    DropOfConcat(status, ", " + tail);
    DropOfConcat(", ", tail);
    assert text[|status| + 2..] == text[|status|..][2..];
  }

  /** The whitelist status can be read back. */
  lemma WhitelistReadBack(isWhitelisted: bool, tail: string)
    ensures ReadWhitelist(WhitelistStatus(isWhitelisted) + tail) == Some(isWhitelisted)
  {
    var status := WhitelistStatus(isWhitelisted);
    PrefixOfConcat(status, tail);
    HeadOfConcat(status, tail);
    HeadOfConcat("not ", Whitelisted);
    HeadOfConcat("not " + Whitelisted, " (needs activation code for errands)");
  }

  /** The context line for a non-empty phone number says which statuses it was built with. */
  lemma ReadStatusesOfContext(phone: string, isRegistered: bool, isWhitelisted: bool)
    requires phone != []
    ensures ReadStatuses(BuildUserContext(Some(phone), isRegistered, isWhitelisted), phone)
      == Some((isRegistered, isWhitelisted))
  {
    var open := Opening(phone);
    var after := WhitelistStatus(isWhitelisted) + Closing(phone);
    var rest := RegistrationStatus(isRegistered) + (", " + after);
    assert BuildUserContext(Some(phone), isRegistered, isWhitelisted) == open + rest;
    PrefixOfConcat(open, rest);
    DropOfConcat(open, rest);
    RegistrationReadBack(isRegistered, after);
    WhitelistReadBack(isWhitelisted, Closing(phone));
  }
}
