/** The two pure decision rules of the command-line front end (src/main.rs):
    the heuristic that flags a question the shell probably mangled, and the
    ordered classification of an API error text into a user-facing message. */
module Cli {
  import opened Text

  // ---------------------------------------------------------------------------
  // Shell-mangled input heuristic
  // ---------------------------------------------------------------------------

  /** Number of bytes `c` takes in UTF-8. */
  function Utf8Width(c: char): (w: nat)
    ensures 1 <= w <= 4
    ensures w == 1 <==> (c as int) < 0x80
  {
    if (c as int) < 0x80 then 1
    else if (c as int) < 0x800 then 2
    else if (c as int) < 0x1_0000 then 3
    else 4
  }

  /** `str::len`: the UTF-8 byte length of `s`, which is never below its number
      of characters and equals it exactly when every character is ASCII. */
  function Utf8Len(s: string): (n: nat)
    ensures |s| <= n <= 4 * |s|
    ensures n == |s| <==> forall i :: 0 <= i < |s| ==> (s[i] as int) < 0x80
  {
    if s == [] then 0
    else
      var tail := Utf8Len(s[1..]);
      assert forall i :: 1 <= i < |s| ==> s[i] == s[1..][i - 1];
      Utf8Width(s[0]) + tail
  }

  /** A character from the set `'`, `"`, backtick, backslash. */
  predicate IsShellSpecial(c: char)
  {
    c == '\'' || c == '"' || c == '`' || c == '\\'
  }

  /** A character whose presence at the very end suggests an unclosed quote or
      a dangling line continuation: `'`, `"` or backslash (not the backtick). */
  predicate IsDanglingEnd(c: char)
  {
    c == '\'' || c == '"' || c == '\\'
  }

  /** `chars().any(...)` over the special characters. */
  function AnyShellSpecial(s: string): (r: bool)
    ensures r <==> exists i :: 0 <= i < |s| && IsShellSpecial(s[i])
  {
    if s == [] then false
    else
      var rest := AnyShellSpecial(s[1..]);
      assert forall i :: 1 <= i < |s| ==> s[i] == s[1..][i - 1];
      assert rest ==> exists i :: 1 <= i < |s| && IsShellSpecial(s[i]);
      IsShellSpecial(s[0]) || rest
  }

  /** `looks_like_incomplete_input`: the question, joined from the command-line
      words, ends in a dangling quote or backslash, is empty, or is shorter than
      five UTF-8 bytes and holds any of the special characters. */
  function LooksLikeIncompleteInput(input: string): (r: bool)
    ensures |input| > 0 && IsDanglingEnd(input[|input| - 1]) ==> r
    ensures !AnyShellSpecial(input) ==> (r <==> input == [])
  {
    (|input| > 0 && input[|input| - 1] == '\'') ||
    (|input| > 0 && input[|input| - 1] == '"') ||
    (|input| > 0 && input[|input| - 1] == '\\') ||
    input == [] ||
    (Utf8Len(input) < 5 && AnyShellSpecial(input))
  }

  /** The empty question is always flagged. */
  lemma {:induction false} EmptyIsIncomplete()
    ensures LooksLikeIncompleteInput("")
  {
  }

  /** A trailing `'`, `"` or backslash is flagged whatever the length. */
  lemma {:induction false} DanglingEndIsIncomplete(input: string)
    requires |input| > 0 && IsDanglingEnd(input[|input| - 1])
    ensures LooksLikeIncompleteInput(input)
  {
  }

  /** A question shorter than five bytes holding a special character anywhere is flagged. */
  lemma {:induction false} ShortWithSpecialIsIncomplete(input: string, k: nat)
    requires k < |input| && IsShellSpecial(input[k])
    requires Utf8Len(input) < 5
    ensures LooksLikeIncompleteInput(input)
  {
  }

  /** A non-empty question of at least five bytes is accepted unless it ends in
      `'`, `"` or backslash, even with quotes or backticks inside it. */
  lemma {:induction false} LongUnterminatedIsComplete(input: string)
    requires |input| > 0 && !IsDanglingEnd(input[|input| - 1])
    requires Utf8Len(input) >= 5
    ensures !LooksLikeIncompleteInput(input)
  {
  }

  /** A non-empty question free of special characters is accepted. */
  lemma {:induction false} PlainIsComplete(input: string)
    requires |input| > 0
    requires forall i :: 0 <= i < |input| ==> !IsShellSpecial(input[i])
    ensures !LooksLikeIncompleteInput(input)
  {
  }

  /** The threshold is in bytes, not characters: three characters ending in a
      backtick are flagged when ASCII, but not when the two letters before it
      take two bytes each. */
  lemma {:induction false} LengthIsCountedInBytes()
    ensures LooksLikeIncompleteInput("ab`")
    ensures !LooksLikeIncompleteInput("\U{E9}\U{E9}`")
  {
    assert Utf8Len("\U{E9}\U{E9}`") == 5 by {
      assert "\U{E9}\U{E9}`"[1..] == "\U{E9}`";
      assert "\U{E9}`"[1..] == "`";
      assert "`"[1..] == "";
    }
  }

  // ---------------------------------------------------------------------------
  // Error classification
  // ---------------------------------------------------------------------------

  /** The message `main` prints to standard error when the request fails. */
  datatype ErrorKind =
    | Offline      // "Sorry, I can't answer that without an active internet connection"
    | OutOfTokens  // "Looks like you ran out of tokens, time to pay up."
    | AuthFailed   // "Authentication failed. Check your API key configuration."
    | Generic      // "Something went wrong: " followed by the error text

  predicate MentionsNetwork(e: string) { Contains(e, "network") || Contains(e, "connection") }
  predicate MentionsTokens(e: string) { Contains(e, "token") || Contains(e, "quota") }
  predicate MentionsAuth(e: string) { Contains(e, "401") || Contains(e, "authentication") }

  /** The if/else-if chain on the error's text: the first keyword group that
      matches decides, in the order network, tokens, authentication. */
  function ClassifyError(e: string): (k: ErrorKind)
    ensures k == Offline <==> MentionsNetwork(e)
    ensures k == OutOfTokens <==> !MentionsNetwork(e) && MentionsTokens(e)
    ensures k == AuthFailed <==> !MentionsNetwork(e) && !MentionsTokens(e) && MentionsAuth(e)
    ensures k == Generic <==> !MentionsNetwork(e) && !MentionsTokens(e) && !MentionsAuth(e)
  {
    if Contains(e, "network") || Contains(e, "connection") then Offline
    else if Contains(e, "token") || Contains(e, "quota") then OutOfTokens
    else if Contains(e, "401") || Contains(e, "authentication") then AuthFailed
    else Generic
  }

  /** First match wins: an error that mentions both a connection and status 401
      is reported as a missing internet connection. */
  lemma {:induction false} NetworkBeatsAuth(e: string)
    requires Contains(e, "connection") && Contains(e, "401")
    ensures ClassifyError(e) == Offline
  {
  }

  /** Any text holding "quota" but no network keyword reports exhausted tokens,
      even when it also mentions authentication. */
  lemma {:induction false} QuotaBeatsAuth(e: string, k: nat)
    requires OccursAt(e, "quota", k)
    requires !MentionsNetwork(e)
    ensures ClassifyError(e) == OutOfTokens
  {
  }
}
