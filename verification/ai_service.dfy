/**
 * Post-processing of the language model's replies: the reply text is an
 * arbitrary input, cleaned into bounded lists of names or a bounded text.
 */
module AiService {
  import opened Text

  /** What the chat-completion call yields to the assistant. */
  datatype Reply =
    | NoClient                  // no API key, so `is_enabled()` is false
    | CallFailed                // the call (or reading its content) raised
    | Answered(content: string) // `response.choices[0].message.content`

  const MaxSuggestions := 5
  const MaxSuggestionLength := 100
  const MaxSubtasks := 7
  const MaxSubtaskLength := 80
  const MaxDescriptionLength := 250
  const Ellipsis := "..."

  /** `s[:n]`. */
  function Take<T>(s: seq<T>, n: nat): (r: seq<T>)
    ensures |r| <= n && |r| <= |s|
    ensures |s| <= n ==> r == s
    ensures |s| > n ==> r == s[..n]
  {
    if |s| <= n then s else s[..n]
  }

  /** `[s.strip() for s in lines if s.strip()]` */
  function NonBlank(lines: seq<string>): (r: seq<string>)
    ensures |r| <= |lines|
    ensures forall i :: 0 <= i < |r| ==> r[i] != [] && StrippedOf(r[i], Whitespace)
  {
    if lines == [] then []
    else
      var s := Strip(lines[0]);
      (if s != [] then [s] else []) + NonBlank(lines[1..])
  }

  /** The filter works line by line: the list of a concatenation is the concatenation of the lists. */
  lemma {:induction false} NonBlankAppend(a: seq<string>, b: seq<string>)
    ensures NonBlank(a + b) == NonBlank(a) + NonBlank(b)
  {
    if a == [] {
      assert a + b == b;
    } else {
      assert (a + b)[0] == a[0];
      assert (a + b)[1..] == a[1..] + b;
      NonBlankAppend(a[1..], b);
    }
  }

  /**
   * Every line that is not blank is kept, stripped, in its place: after the
   * kept forms of the lines before it and before those of the lines after it.
   */
  lemma NonBlankKeeps(before: seq<string>, line: string, after: seq<string>)
    requires Strip(line) != []
    ensures NonBlank(before + ([line] + after)) == NonBlank(before) + ([Strip(line)] + NonBlank(after))
  {
    NonBlankAppend(before, [line] + after);
    NonBlankAppend([line], after);
    assert NonBlank([line]) == [Strip(line)] by {
      assert [line][1..] == [];
    }
  }

  /** Blank lines leave no trace in the list, wherever they stand. */
  lemma {:induction false} BlankLinesVanish(before: seq<string>, blank: string, after: seq<string>)
    requires Strip(blank) == []
    ensures NonBlank(before + [blank] + after) == NonBlank(before + after)
  {
    if before == [] {
      assert before + [blank] + after == [blank] + after && before + after == after;
      assert ([blank] + after)[1..] == after;
    } else {
      assert (before + [blank] + after)[1..] == before[1..] + [blank] + after;
      assert (before + after)[1..] == before[1..] + after;
      BlankLinesVanish(before[1..], blank, after);
    }
  }

  /** The reply text as its list of stripped, non-blank lines. */
  function ReplyLines(content: string): (r: seq<string>)
    ensures forall i :: 0 <= i < |r| ==> r[i] != [] && StrippedOf(r[i], Whitespace)
  {
    NonBlank(Split(Strip(content), '\n'))
  }

  /** `line.strip('- ').strip('1234567890. ').strip()`: drops bullets and numbering. */
  function CleanLine(line: string): string {
    Strip(StripWith(StripWith(line, AnyOf("- ")), AnyOf("1234567890. ")))
  }

  /**
   * Stripping works at both ends, so a number at the end of a suggestion goes
   * with the numbering at its start.
   */
  lemma TrailingNumberStripped()
    ensures CleanLine("2. Go 10") == "Go"
  {
    StripWithUnchanged("2. Go 10", AnyOf("- "));
    NumberingStripped();
    StripWithUnchanged("Go", Whitespace);
  }

  /** The numbering step alone: digits, dots and spaces go from both ends. */
  lemma NumberingStripped()
    ensures StripWith("2. Go 10", AnyOf("1234567890. ")) == "Go"
  {
    NumberingPieces("2. ", "Go", " 10");
    assert "2. " + "Go" + " 10" == "2. Go 10";
  }

  /** The same line as its three pieces: numbering, text, trailing number. */
  lemma NumberingPieces(numbering: string, text: string, number: string)
    requires numbering == "2. " && text == "Go" && number == " 10"
    ensures StripWith(numbering + text + number, AnyOf("1234567890. ")) == text
  {
    StripWithExact(numbering, text, number, AnyOf("1234567890. "));
  }

  /** A cleaned line that is kept: non-empty, short enough, no surrounding whitespace. */
  predicate Presentable(s: string, maxLength: nat) {
    0 < |s| <= maxLength && StrippedOf(s, Whitespace)
  }

  /** `[CleanLine(line) for line in lines]` */
  function Cleaned(lines: seq<string>): (r: seq<string>)
    ensures |r| == |lines|
    ensures forall i :: 0 <= i < |r| ==> r[i] == CleanLine(lines[i])
  {
    seq(|lines|, i requires 0 <= i < |lines| => CleanLine(lines[i]))
  }

  /** `if cleaned and len(cleaned) <= maxLength`: the cleaned line, or nothing. */
  function Keep(cleaned: string, maxLength: nat): seq<string> {
    if cleaned != [] && |cleaned| <= maxLength then [cleaned] else []
  }

  /** The cleaned lines that pass the length filter, in order. */
  function Filtered(cleaned: seq<string>, maxLength: nat): (r: seq<string>)
    ensures |r| <= |cleaned|
  {
    if cleaned == [] then []
    else Filtered(cleaned[..|cleaned| - 1], maxLength) + Keep(cleaned[|cleaned| - 1], maxLength)
  }

  /** What the cleaning loop keeps of `lines`. */
  function Kept(lines: seq<string>, maxLength: nat): (r: seq<string>)
    ensures |r| <= |lines|
  {
    Filtered(Cleaned(lines), maxLength)
  }

  /** One more line through the cleaning loop. */
  lemma KeptSnoc(lines: seq<string>, i: nat, maxLength: nat)
    requires i < |lines|
    ensures Kept(lines[..i + 1], maxLength) == Kept(lines[..i], maxLength) + Keep(CleanLine(lines[i]), maxLength)
  {
    assert lines[..i + 1][..i] == lines[..i];
    var c := Cleaned(lines[..i + 1]);
    assert c[..i] == Cleaned(lines[..i]);
  }

  /**
   * Which cleaned line each kept string is: indices strictly increasing, so
   * the filter keeps the relative order of its input.
   */
  function FilteredSources(cleaned: seq<string>, maxLength: nat): (idx: seq<nat>)
    ensures |idx| == |Filtered(cleaned, maxLength)|
    ensures forall k :: 0 <= k < |idx| ==> idx[k] < |cleaned| && Filtered(cleaned, maxLength)[k] == cleaned[idx[k]]
    ensures forall k, l :: 0 <= k < l < |idx| ==> idx[k] < idx[l]
  {
    if cleaned == [] then []
    else
      var n := |cleaned| - 1;
      var prefix := FilteredSources(cleaned[..n], maxLength);
      prefix + (if Keep(cleaned[n], maxLength) != [] then [n] else [])
  }

  /** Every line that passes the filter is kept: its position is among the sources. */
  lemma {:induction false} FilteredKeeps(cleaned: seq<string>, maxLength: nat, i: nat)
    requires i < |cleaned| && cleaned[i] != [] && |cleaned[i]| <= maxLength
    ensures i in FilteredSources(cleaned, maxLength)
    ensures cleaned[i] in Filtered(cleaned, maxLength)
  {
    var n := |cleaned| - 1;
    var init := cleaned[..n];
    if i < n {
      assert init[i] == cleaned[i];
      FilteredKeeps(init, maxLength, i);
    }
    assert FilteredSources(cleaned, maxLength)
           == FilteredSources(init, maxLength) + (if Keep(cleaned[n], maxLength) != [] then [n] else []);
    assert Filtered(cleaned, maxLength) == Filtered(init, maxLength) + Keep(cleaned[n], maxLength);
  }

  /** Every string the filter keeps is non-empty and at most `maxLength` long. */
  lemma {:induction false} FilteredBounded(cleaned: seq<string>, maxLength: nat)
    ensures forall k :: 0 <= k < |Filtered(cleaned, maxLength)| ==>
              Filtered(cleaned, maxLength)[k] in cleaned && 0 < |Filtered(cleaned, maxLength)[k]| <= maxLength
  {
    if cleaned != [] {
      var n := |cleaned| - 1;
      FilteredBounded(cleaned[..n], maxLength);
      assert forall x :: x in cleaned[..n] ==> x in cleaned;
    }
  }

  /** Every kept string is non-empty, at most `maxLength` long and has no surrounding whitespace. */
  lemma KeptPresentable(lines: seq<string>, maxLength: nat)
    ensures forall k :: 0 <= k < |Kept(lines, maxLength)| ==> Presentable(Kept(lines, maxLength)[k], maxLength)
  {
    FilteredBounded(Cleaned(lines), maxLength);
  }

  /**
   * The kept strings are the cleaned forms of lines taken in their original
   * order, and every line whose cleaned form passes is among them.
   */
  lemma KeptInLineOrder(lines: seq<string>, maxLength: nat)
    ensures var idx := FilteredSources(Cleaned(lines), maxLength);
            && |idx| == |Kept(lines, maxLength)|
            && (forall k :: 0 <= k < |idx| ==> idx[k] < |lines| && Kept(lines, maxLength)[k] == CleanLine(lines[idx[k]]))
            && (forall k, l :: 0 <= k < l < |idx| ==> idx[k] < idx[l])
            && (forall i :: 0 <= i < |lines| && CleanLine(lines[i]) != [] && |CleanLine(lines[i])| <= maxLength ==> i in idx)
  {
    var cleaned := Cleaned(lines);
    var idx := FilteredSources(cleaned, maxLength);
    forall k | 0 <= k < |idx|
      ensures idx[k] < |lines| && Kept(lines, maxLength)[k] == CleanLine(lines[idx[k]])
    {
      assert Kept(lines, maxLength)[k] == cleaned[idx[k]];
    }
    forall i | 0 <= i < |lines| && CleanLine(lines[i]) != [] && |CleanLine(lines[i])| <= maxLength
      ensures i in idx
    {
      FilteredKeeps(cleaned, maxLength, i);
    }
  }

  /**
   * The cleaning loop: the first `limit` lines, each cleaned, kept when
   * non-empty and at most `maxLength` long.
   */
  method CleanLines(lines: seq<string>, limit: nat, maxLength: nat) returns (clean: seq<string>)
    ensures clean == Kept(Take(lines, limit), maxLength)
    ensures |clean| <= limit
  {
    var candidates := Take(lines, limit);
    clean := [];
    var i := 0;
    assert Kept(candidates[..0], maxLength) == [] by {
      assert candidates[..0] == [];
    }
    while i < |candidates|
      invariant 0 <= i <= |candidates|
      invariant clean == Kept(candidates[..i], maxLength)
    {
      var cleaned := CleanLine(candidates[i]);
      KeptSnoc(candidates, i, maxLength);
      if cleaned != [] && |cleaned| <= maxLength {
        clean := clean + [cleaned];
      } else {
        assert clean + Keep(cleaned, maxLength) == clean;
      }
      i := i + 1;
    }
    assert candidates[..i] == candidates;
  }

  /** `suggest_task_names`: at most five names, from the first five non-blank lines. */
  method SuggestTaskNames(reply: Reply) returns (names: seq<string>)
    ensures !reply.Answered? ==> names == []
    ensures reply.Answered? ==> names == Kept(Take(ReplyLines(reply.content), MaxSuggestions), MaxSuggestionLength)
    ensures |names| <= MaxSuggestions
    ensures forall i :: 0 <= i < |names| ==> Presentable(names[i], MaxSuggestionLength)
  {
    match reply {
      case NoClient =>
        names := [];
      case CallFailed =>
        names := [];
      case Answered(content) =>
        var clean := CleanLines(ReplyLines(content), MaxSuggestions, MaxSuggestionLength);
        KeptPresentable(Take(ReplyLines(content), MaxSuggestions), MaxSuggestionLength);
        names := Take(clean, MaxSuggestions);
    }
  }

  /** `suggest_task_breakdown`: at most seven subtasks, from the first seven non-blank lines. */
  method SuggestTaskBreakdown(reply: Reply) returns (subtasks: seq<string>)
    ensures !reply.Answered? ==> subtasks == []
    ensures reply.Answered? ==> subtasks == Kept(Take(ReplyLines(reply.content), MaxSubtasks), MaxSubtaskLength)
    ensures |subtasks| <= MaxSubtasks
    ensures forall i :: 0 <= i < |subtasks| ==> Presentable(subtasks[i], MaxSubtaskLength)
  {
    match reply {
      case NoClient =>
        subtasks := [];
      case CallFailed =>
        subtasks := [];
      case Answered(content) =>
        subtasks := CleanLines(ReplyLines(content), MaxSubtasks, MaxSubtaskLength);
        KeptPresentable(Take(ReplyLines(content), MaxSubtasks), MaxSubtaskLength);
    }
  }

  /** A text over 250 characters becomes its first 247 followed by "...". */
  function Truncate(s: string): (r: string)
    ensures |r| <= MaxDescriptionLength
    ensures r == s <==> |s| <= MaxDescriptionLength
    ensures |s| > MaxDescriptionLength ==>
              |r| == MaxDescriptionLength
              && r[..MaxDescriptionLength - |Ellipsis|] == s[..MaxDescriptionLength - |Ellipsis|]
              && r[MaxDescriptionLength - |Ellipsis|..] == Ellipsis
  {
    if |s| > MaxDescriptionLength then s[..MaxDescriptionLength - |Ellipsis|] + Ellipsis else s
  }

  /** `expand_task_description`: the stripped reply, bounded; the brief description when there is none. */
  function ExpandTaskDescription(reply: Reply, briefDescription: string): (r: string)
    ensures !reply.Answered? ==> r == briefDescription
    ensures reply.Answered? ==> |r| <= MaxDescriptionLength
    ensures reply.Answered? && |Strip(reply.content)| <= MaxDescriptionLength ==> r == Strip(reply.content)
    ensures reply.Answered? ==> r == Truncate(Strip(reply.content))
  {
    match reply
    case Answered(content) => Truncate(Strip(content))
    case _ => briefDescription
  }
}
