/**
 * The command sanitizer (agent.js `sanitizeCommand`): turns a raw planner
 * reply into the command to run, or the completion token, by trimming it and
 * stripping a Markdown code fence.
 */
module Sanitizer {
  import opened Text

  const Fence := "```"

  /** Length of the run of ASCII letters at the start of `s`: the greedy `[a-zA-Z]*`. */
  function LetterRun(s: string): (n: nat)
    ensures n <= |s|
    ensures forall i :: 0 <= i < n ==> IsAsciiLetter(s[i])
    ensures n == |s| || !IsAsciiLetter(s[n])
  {
    if |s| > 0 && IsAsciiLetter(s[0]) then 1 + LetterRun(s[1..]) else 0
  }

  /** `replace(/^```[a-zA-Z]*\n?/, "")`: drops a leading fence, its language tag
      and one newline after the tag, if any. */
  function StripOpeningFence(s: string): (r: string)
    ensures !StartsWith(s, Fence) ==> r == s
    ensures StartsWith(s, Fence) ==> |r| <= |s| - |Fence| && r == s[|s| - |r|..]
  {
    if StartsWith(s, Fence) then
      var rest := s[|Fence|..];
      var afterTag := rest[LetterRun(rest)..];
      if |afterTag| > 0 && afterTag[0] == '\n' then afterTag[1..] else afterTag
    else s
  }

  /** `replace(/```$/, "")`: drops a fence that ends the text. */
  function StripClosingFence(s: string): (r: string)
    ensures EndsWith(s, Fence) ==> r + Fence == s
    ensures !EndsWith(s, Fence) ==> r == s
  {
    if EndsWith(s, Fence) then s[..|s| - |Fence|] else s
  }

  /** `sanitizeCommand`: the result never has white space at either end. */
  function SanitizeCommand(text: string): (r: string)
    ensures IsTrimmed(r)
  {
    if text == "" then ""
    else
      var cleaned := Trim(text);
      if StartsWith(cleaned, Fence) then Trim(StripClosingFence(StripOpeningFence(cleaned)))
      else cleaned
  }

  /** Empty or white-space-only replies sanitize to the empty command. */
  lemma SanitizeBlank(text: string)
    requires AllSpace(text)
    ensures SanitizeCommand(text) == ""
  {
    TrimEmpty(text);
  }

  predicate AllLetters(s: string) {
    forall i :: 0 <= i < |s| ==> IsAsciiLetter(s[i])
  }

  /** A reply wrapped in a fenced block with a letters-only language tag, with
      any white space around it, sanitizes to the trimmed inner text. */
  lemma SanitizeFenced(pre: string, tag: string, body: string, post: string)
    requires AllSpace(pre) && AllSpace(post) && AllLetters(tag)
    ensures SanitizeCommand(pre + Fence + tag + "\n" + body + Fence + post) == Trim(body)
  {
    var inner := body + Fence;
    var fenced := Fence + tag + "\n" + inner;
    var text := pre + Fence + tag + "\n" + body + Fence + post;
    FencedRegroup(pre, tag, body, post);
    FencedTrimmed(tag, inner);
    TrimOfPadded(pre, fenced, post);
    StripOpeningOfFenced(tag, inner);
    assert StripClosingFence(inner) == body;
    assert StartsWith(fenced, Fence) by { assert fenced[..|Fence|] == Fence; }
    assert text != "" by { assert |text| >= |fenced|; }
  }

  lemma FencedRegroup(pre: string, tag: string, body: string, post: string)
    ensures pre + Fence + tag + "\n" + body + Fence + post == pre + (Fence + tag + "\n" + (body + Fence)) + post
  {
  }

  /** A fenced block has a backtick at both ends, so there is nothing to trim. */
  lemma FencedTrimmed(tag: string, inner: string)
    requires EndsWith(inner, Fence)
    ensures IsTrimmed(Fence + tag + "\n" + inner)
  {
    var fenced := Fence + tag + "\n" + inner;
    assert fenced[0] == '`';
    assert fenced[|fenced| - 1] == inner[|inner| - 1] == inner[|inner| - |Fence|..][2] == '`';
  }

  lemma StripOpeningOfFenced(tag: string, inner: string)
    requires AllLetters(tag)
    ensures StripOpeningFence(Fence + tag + "\n" + inner) == inner
  {
    var s := Fence + tag + "\n" + inner;
    assert StartsWith(s, Fence) by { assert s[..|Fence|] == Fence; }
    var rest := s[|Fence|..];
    assert rest == tag + ("\n" + inner);
    LetterRunOf(tag, "\n" + inner);
    assert rest[|tag|..] == "\n" + inner;
  }

  lemma {:induction false} LetterRunOf(tag: string, rest: string)
    requires AllLetters(tag)
    requires rest == [] || !IsAsciiLetter(rest[0])
    ensures LetterRun(tag + rest) == |tag|
  {
    if tag != [] {
      assert (tag + rest)[1..] == tag[1..] + rest;
      LetterRunOf(tag[1..], rest);
    }
  }

  /** The language tag is letters only: a tag such as `python3` ends at the
      digit, so the rest of the tag line stays in the command. */
  lemma SanitizeTagStopsAtNonLetter(tag: string, c: char, body: string)
    requires AllLetters(tag) && !IsAsciiLetter(c) && c != '\n'
    ensures SanitizeCommand(Fence + tag + [c] + body + Fence) == Trim([c] + body)
  {
    var kept := [c] + body;
    var inner := kept + Fence;
    var fenced := Fence + tag + inner;
    assert Fence + tag + [c] + body + Fence == fenced;
    TagLineTrimmed(tag, inner);
    TrimOfTrimmed(fenced);
    StripOpeningAtNonLetter(tag, inner);
    assert StripClosingFence(inner) == kept;
  }

  lemma TagLineTrimmed(tag: string, inner: string)
    requires EndsWith(inner, Fence)
    ensures IsTrimmed(Fence + tag + inner)
  {
    var fenced := Fence + tag + inner;
    assert fenced[0] == '`';
    assert fenced[|fenced| - 1] == inner[|inner| - 1] == inner[|inner| - |Fence|..][2] == '`';
  }

  lemma StripOpeningAtNonLetter(tag: string, inner: string)
    requires AllLetters(tag) && inner != [] && !IsAsciiLetter(inner[0]) && inner[0] != '\n'
    ensures StartsWith(Fence + tag + inner, Fence)
    ensures StripOpeningFence(Fence + tag + inner) == inner
  {
    var s := Fence + tag + inner;
    assert s[..|Fence|] == Fence;
    var rest := s[|Fence|..];
    assert rest == tag + inner;
    LetterRunOf(tag, inner);
    assert rest[|tag|..] == inner;
  }

  /** Unfenced text with white space around it sanitizes to the text itself. */
  lemma SanitizePadded(pre: string, m: string, post: string)
    requires AllSpace(pre) && AllSpace(post) && IsTrimmed(m) && !StartsWith(m, Fence)
    ensures SanitizeCommand(pre + m + post) == m
  {
    TrimOfPadded(pre, m, post);
  }

  /** A reply of plain words is kept by `sanitizeCommand`. */
  lemma PlainKept(m: string)
    requires m != "" && m[0] != '`' && !IsSpace(m[0]) && !IsSpace(m[|m| - 1])
    ensures SanitizeCommand(m) == m
  {
    if |m| >= |Fence| {
      assert m[..|Fence|][0] != Fence[0];
    }
    SanitizePlain(m);
  }

  /** Trimmed unfenced text is its own sanitization. */
  lemma SanitizePlain(m: string)
    requires m != "" && IsTrimmed(m) && !StartsWith(m, Fence)
    ensures SanitizeCommand(m) == m
  {
    assert [] + m + [] == m;
    SanitizePadded([], m, []);
  }
}
