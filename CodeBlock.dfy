/** The code extractor and the turn formatter: pulling the code out of a
    model reply, and wrapping extracted code back into a canonical fenced
    assistant turn. */
module CodeBlock {
  import opened PyStr

  /** The markdown fence the extractor splits on. */
  const Fence := "```"

  /** The only language tag the extractor removes, as a literal prefix. */
  const LanguageTag := "python"

  /** The code of a model reply. When splitting on the fence gives at least
      three pieces, the second piece, stripped, with one leading literal
      `python` removed and stripped again; otherwise the whole reply,
      stripped. Every outcome is stripped. */
  function ExtractCodeBlock(response: string): (code: string)
    ensures IsStripped(code)
  {
    if Contains(response, Fence) then
      var parts := Split(response, Fence);
      if |parts| >= 3 then
        var block := Strip(parts[1]);
        if StartsWith(block, LanguageTag) then Strip(block[6..]) else block
      else Strip(response)
    else Strip(response)
  }

  /** The assistant turn recorded in the history in place of the raw reply. */
  function CleanAssistantResponse(code: string): (turn: string)
    ensures |turn| == |code| + 14
    ensures StartsWith(turn, Fence + LanguageTag + "\n")
    ensures turn[|turn| - 4..] == "\n" + Fence
    ensures turn[10..|turn| - 4] == code
  {
    Fence + LanguageTag + "\n" + code + "\n" + Fence
  }

  lemma TwoImpliesContains(s: string, sep: string)
    requires TwoOccurrences(s, sep)
    ensures Contains(s, sep)
  {
    var i, j :| 0 <= i && i + |sep| <= j <= |s| && OccursAt(s, sep, i) && OccursAt(s, sep, j);
    assert OccursAt(s, sep, i);
  }

  /** Each character of a fence occurrence is a backtick. */
  lemma FenceChars(s: string, k: int)
    ensures OccursAt(s, Fence, k) ==> s[k] == '`' && s[k + 1] == '`' && s[k + 2] == '`'
  {
    if OccursAt(s, Fence, k) {
      assert s[k] == s[k..k + 3][0] && s[k + 1] == s[k..k + 3][1] && s[k + 2] == s[k..k + 3][2];
    }
  }

  lemma NoBacktickNoFence(s: string)
    requires '`' !in s
    ensures !Contains(s, Fence)
  {
    forall k | 0 <= k <= |s| - 3 ensures !OccursAt(s, Fence, k) {
      FenceChars(s, k);
    }
  }

  /** A reply with two separate fences yields the text between the first
      two, stripped, with a leading literal `python` removed and the rest
      stripped again. */
  lemma ExtractFenced(response: string)
    requires TwoOccurrences(response, Fence)
    ensures var block := Strip(Between(response, Fence));
      ExtractCodeBlock(response) == if StartsWith(block, LanguageTag) then Strip(block[6..]) else block
  {
    TwoImpliesContains(response, Fence);
    SplitThreePieces(response, Fence);
    SplitSecondPiece(response, Fence);
  }

  lemma DropTagKeepsNoFence(block: string)
    requires !Contains(block, Fence) && StartsWith(block, LanguageTag)
    ensures !Contains(Strip(block[6..]), Fence)
  {
    NoOccurrenceInSlice(block, Fence, 6, |block|);
    assert block[6..|block|] == block[6..];
    StripNoOccurrence(block[6..], Fence);
  }

  /** The code taken from between two fences never holds a fence. */
  lemma ExtractFencedHasNoFence(response: string)
    requires TwoOccurrences(response, Fence)
    ensures !Contains(ExtractCodeBlock(response), Fence)
  {
    ExtractFenced(response);
    var piece := Between(response, Fence);
    BetweenNoOccurrence(response, Fence);
    StripNoOccurrence(piece, Fence);
    var block := Strip(piece);
    if StartsWith(block, LanguageTag) {
      DropTagKeepsNoFence(block);
    }
  }

  /** A reply without two separate fences yields itself, stripped. */
  lemma ExtractFallback(response: string)
    requires !TwoOccurrences(response, Fence)
    ensures ExtractCodeBlock(response) == Strip(response)
  {
    SplitThreePieces(response, Fence);
  }

  /** A reply with exactly one fence keeps that fence in its extracted code. */
  lemma ExtractKeepsLoneFence(response: string)
    requires Contains(response, Fence) && !TwoOccurrences(response, Fence)
    ensures Contains(ExtractCodeBlock(response), Fence)
  {
    ExtractFallback(response);
    var i :| 0 <= i <= |response| - 3 && OccursAt(response, Fence, i);
    StripKeepsOccurrence(response, Fence, i);
  }

  /** The extracted code holds a fence exactly when the reply holds one
      fence but not two. */
  lemma ExtractHasFenceIff(response: string)
    ensures Contains(ExtractCodeBlock(response), Fence)
      <==> Contains(response, Fence) && !TwoOccurrences(response, Fence)
  {
    if TwoOccurrences(response, Fence) {
      ExtractFencedHasNoFence(response);
    } else if Contains(response, Fence) {
      ExtractKeepsLoneFence(response);
    } else {
      ExtractFallback(response);
      StripNoOccurrence(response, Fence);
    }
  }

  /** Extracting twice gives what extracting once gives. */
  lemma ExtractIdempotent(response: string)
    ensures ExtractCodeBlock(ExtractCodeBlock(response)) == ExtractCodeBlock(response)
  {
    var code := ExtractCodeBlock(response);
    if TwoOccurrences(response, Fence) {
      ExtractFencedHasNoFence(response);
      if TwoOccurrences(code, Fence) {
        TwoImpliesContains(code, Fence);
      }
    } else {
      ExtractFallback(response);
      var a, b := StripSlice(response);
      NoTwoInSlice(response, Fence, a, b);
    }
    ExtractFallback(code);
    StripStripped(code);
  }

  /** Text wrapped in a pair of fences, after a prefix without backticks,
      is what lies between the first two fences, provided it holds no fence
      and does not end in a backtick. */
  lemma WrappedBetween(p: string, m: string, q: string)
    requires '`' !in p
    requires !Contains(m, Fence) && (m == [] || m[|m| - 1] != '`')
    ensures TwoOccurrences(p + Fence + m + Fence + q, Fence)
    ensures Between(p + Fence + m + Fence + q, Fence) == m
  {
    var s := p + Fence + m + Fence + q;
    FirstFenceAfterPrefix(p, m + Fence + q);
    assert p + Fence + (m + Fence + q) == s;
    FenceClosesText(p, m, q);
    BetweenAt(s, Fence, |p|, |p| + 3 + |m|);
    FramedMiddle(p, Fence, m, q);
  }

  lemma FirstFenceAfterPrefix(p: string, rest: string)
    requires '`' !in p
    ensures FindFrom(p + Fence + rest, Fence, 0) == |p|
  {
    var s := p + Fence + rest;
    assert s[|p|..|p| + 3] == Fence;
    forall k | 0 <= k < |p| ensures !OccursAt(s, Fence, k) {
      FenceChars(s, k);
      assert s[k] == p[k];
    }
    FindFromIs(s, Fence, 0, |p|);
  }

  /** The search that starts after the opening fence stops at the fence
      that closes `m`. */
  lemma FenceClosesText(p: string, m: string, q: string)
    requires !Contains(m, Fence) && (m == [] || m[|m| - 1] != '`')
    ensures FindFrom(p + Fence + m + Fence + q, Fence, |p| + 3) == |p| + 3 + |m|
  {
    var x := p + Fence;
    var s := x + m + (Fence + q);
    assert s == p + Fence + m + Fence + q;
    var d := |x|;
    var e := d + |m|;
    assert s[e..e + 3] == Fence;
    forall k | d <= k < e ensures !OccursAt(s, Fence, k) {
      if k + 3 <= e {
        assert s[k..k + 3] == m[k - d..k - d + 3];
        assert !OccursAt(m, Fence, k - d);
      } else {
        FenceChars(s, k);
        assert s[e - 1] == m[|m| - 1];
      }
    }
    FindFromIs(s, Fence, d, e);
  }

  /** The body of a formatted turn holds no fence when the code holds none. */
  lemma TurnBodyHasNoFence(code: string)
    requires !Contains(code, Fence)
    ensures !Contains(LanguageTag + "\n" + code + "\n", Fence)
  {
    var x := LanguageTag + "\n" + code + "\n";
    forall k | 0 <= k <= |x| - 3 ensures !OccursAt(x, Fence, k) {
      FenceChars(x, k);
      if k < 7 {
        assert x[k] == (LanguageTag + "\n")[k];
      } else if k + 3 <= 7 + |code| {
        assert x[k..k + 3] == code[k - 7..k - 7 + 3];
        assert !OccursAt(code, Fence, k - 7);
      } else {
        assert x[7 + |code|] == '\n';
      }
    }
  }

  /** Stripping the body of a formatted turn leaves the tag in front, and
      dropping it and stripping again leaves the code, stripped. */
  lemma StripTurnBody(code: string)
    ensures var block := Strip(LanguageTag + "\n" + code + "\n");
      StartsWith(block, LanguageTag) && Strip(block[6..]) == Strip(code)
  {
    assert IsStripped(LanguageTag) && All("\n", IsSpace);
    StripTaggedBody(LanguageTag, "\n", code);
  }

  /** A formatted turn embedded after backtick-free text gives back the
      stripped code, whatever follows it, as long as the code holds no fence. */
  lemma ExtractEmbeddedTurn(p: string, code: string, q: string)
    requires '`' !in p
    requires !Contains(code, Fence)
    ensures ExtractCodeBlock(p + CleanAssistantResponse(code) + q) == Strip(code)
  {
    var x := LanguageTag + "\n" + code + "\n";
    var s := p + CleanAssistantResponse(code) + q;
    assert s == p + Fence + x + Fence + q;
    TurnBodyHasNoFence(code);
    WrappedBetween(p, x, q);
    ExtractFenced(s);
    StripTurnBody(code);
  }

  /** Extracting a formatted turn gives back the code, stripped, whenever the
      code holds no fence. */
  lemma FormatRoundTrip(code: string)
    requires !Contains(code, Fence)
    ensures ExtractCodeBlock(CleanAssistantResponse(code)) == Strip(code)
  {
    ExtractEmbeddedTurn("", code, "");
    assert "" + CleanAssistantResponse(code) + "" == CleanAssistantResponse(code);
  }

  /** A formatted turn always holds two separate fences. */
  lemma TurnHasTwoFences(code: string)
    ensures TwoOccurrences(CleanAssistantResponse(code), Fence)
  {
    var turn := CleanAssistantResponse(code);
    assert turn[..3] == Fence;
    assert turn[|turn| - 3..] == Fence;
    SearchesGiveTwo(turn, Fence, 0, |turn| - 3);
  }

  /** Re-extracting the recorded assistant turn recovers the extracted code
      exactly when the reply did not hold a single lone fence. */
  lemma RenormalizedTurnRecoversCode(response: string)
    ensures ExtractCodeBlock(CleanAssistantResponse(ExtractCodeBlock(response))) == ExtractCodeBlock(response)
      <==> !(Contains(response, Fence) && !TwoOccurrences(response, Fence))
  {
    var code := ExtractCodeBlock(response);
    ExtractHasFenceIff(response);
    if !Contains(code, Fence) {
      FormatRoundTrip(code);
      StripStripped(code);
    } else {
      TurnHasTwoFences(code);
      ExtractFencedHasNoFence(CleanAssistantResponse(code));
    }
  }

  /** A reply with prose around a fenced block gives the bare code. */
  lemma ExtractProseAroundBlock()
    ensures ExtractCodeBlock("foo ```python\nCODE\n``` bar") == "CODE"
  {
    ProseAroundTurn();
    NoBacktickNoFence("CODE");
    ExtractEmbeddedTurn("foo ", "CODE", " bar");
    StripStripped("CODE");
  }

  lemma ProseAroundTurn()
    ensures "foo ```python\nCODE\n``` bar" == "foo " + CleanAssistantResponse("CODE") + " bar"
  {
  }

  /** The tag is removed as a literal prefix, even from inside a word. */
  lemma ExtractPythonicPrefix(response: string)
    requires response == "```pythonic\nx = 1\n```"
    ensures ExtractCodeBlock(response) == "ic\nx = 1"
  {
    PythonicBlock(response);
    ExtractFenced(response);
    PythonicTagDropped(Strip(Between(response, Fence)));
  }

  lemma PythonicBlock(response: string)
    requires response == "```pythonic\nx = 1\n```"
    ensures TwoOccurrences(response, Fence)
    ensures Strip(Between(response, Fence)) == "pythonic\nx = 1"
  {
    PythonicBetween();
    StripUnique("pythonic\nx = 1\n", "", "pythonic\nx = 1", "\n");
  }

  lemma PythonicBetween()
    ensures TwoOccurrences("```pythonic\nx = 1\n```", Fence)
    ensures Between("```pythonic\nx = 1\n```", Fence) == "pythonic\nx = 1\n"
  {
    var m := "pythonic\nx = 1\n";
    assert "```pythonic\nx = 1\n```" == "" + Fence + m + Fence + "";
    NoBacktickNoFence(m);
    WrappedBetween("", m, "");
  }

  lemma PythonicTagDropped(block: string)
    requires block == "pythonic\nx = 1"
    ensures StartsWith(block, LanguageTag) && Strip(block[6..]) == "ic\nx = 1"
  {
    assert block[..6] == LanguageTag && block[6..] == "ic\nx = 1";
    StripStripped("ic\nx = 1");
  }

  /** A lone fence survives extraction, so re-extracting the recorded turn
      loses the text after it. */
  lemma LoneFenceLostOnReextraction(response: string)
    requires response == "a ``` b"
    ensures ExtractCodeBlock(response) == response
    ensures ExtractCodeBlock(CleanAssistantResponse(response)) == "a"
  {
    LoneFenceReply();
    ExtractFallback(response);
    StripStripped(response);
    var turn := CleanAssistantResponse(response);
    LoneFenceTurnBlock(turn);
    ExtractFenced(turn);
    LoneFenceTagDropped(Strip(Between(turn, Fence)));
  }

  lemma LoneFenceTurnBlock(turn: string)
    requires turn == CleanAssistantResponse("a ``` b")
    ensures TwoOccurrences(turn, Fence)
    ensures Strip(Between(turn, Fence)) == "python\na"
  {
    LoneFenceTurnBetween();
    StripUnique("python\na ", "", "python\na", " ");
  }

  lemma LoneFenceTagDropped(block: string)
    requires block == "python\na"
    ensures StartsWith(block, LanguageTag) && Strip(block[6..]) == "a"
  {
    assert block[..6] == LanguageTag && block[6..] == "\na";
    StripUnique("\na", "\n", "a", "");
  }

  lemma LoneFenceReply()
    ensures !TwoOccurrences("a ``` b", Fence)
  {
    var r := "a ``` b";
    forall i | 0 <= i <= |r| - 3 ensures OccursAt(r, Fence, i) ==> i == 2 {
      FenceChars(r, i);
    }
  }

  lemma LoneFenceTurnBetween()
    ensures TwoOccurrences(CleanAssistantResponse("a ``` b"), Fence)
    ensures Between(CleanAssistantResponse("a ``` b"), Fence) == "python\na "
  {
    var m := "python\na ";
    assert CleanAssistantResponse("a ``` b") == "" + Fence + m + Fence + " b\n```";
    NoBacktickNoFence(m);
    WrappedBetween("", m, " b\n```");
  }
}
