/**
 * The text-message handler: a submission "<message> через <days>" is
 * parsed and, when it is well formed, stored as one capsule due `days`
 * days after the moment it arrives.
 */
module Submission {
  import opened Wrappers
  import opened PyText
  import opened CapsuleStore

  /** The word that separates the message from the day count, with a space on each side. */
  const Separator: string := " через "

  /** timedelta(days=1), in microseconds. */
  const MicrosPerDay: int := 86_400_000_000

  const FormatPrompt: string :=
    "Напиши сообщение в формате: 'Сообщение через <число дней>' (например, 'Привет через 365')."

  const ConfirmationHead: string := "Ваше сообщение '"
  const ConfirmationMiddle: string := "' сохранено. Оно будет отправлено вам "

  /** The reply confirming a saved capsule; `when` is the formatted send date. */
  function Confirmation(message: string, when: string): string {
    ConfirmationHead + message + ConfirmationMiddle + when + "."
  }

  /**
   * The confirmation quotes the message right after its head, and the date
   * closes the reply before the final full stop.
   */
  lemma ConfirmationShape(message: string, when: string)
    ensures var r := Confirmation(message, when);
      && |r| == |ConfirmationHead| + |message| + |ConfirmationMiddle| + |when| + 1
      && r[..|ConfirmationHead|] == ConfirmationHead
      && r[|ConfirmationHead|..|ConfirmationHead| + |message|] == message
      && r[|r| - |when| - 1 - |ConfirmationMiddle|..|r| - |when| - 1] == ConfirmationMiddle
      && r[|r| - |when| - 1..|r| - 1] == when
      && r[|r| - 1] == '.'
  {
    var head := ConfirmationHead + message;
    var tail := ConfirmationMiddle + when + ".";
    assert Confirmation(message, when) == head + tail;
    assert head[..|ConfirmationHead|] == ConfirmationHead;
    assert head[|ConfirmationHead|..] == message;
    assert tail[..|ConfirmationMiddle|] == ConfirmationMiddle;
    assert tail[|ConfirmationMiddle|..|tail| - 1] == when;
  }

  /** A well-formed submission: the capsule text and the number of days to wait. */
  datatype Request = Request(message: string, days: int)

  /** Why a submission was refused: the two places the handler raises ValueError. */
  datatype ParseError =
    | WrongPartCount(parts: nat)   // the split did not give exactly two parts
    | NotAnInteger(text: string)   // int() refused the text after the separator

  /**
   * The parsing half of handle_message: strip the text, split it on the
   * separator, require two parts, strip each, and read the second with int().
   */
  function Parse(text: string): (r: Result<Request, ParseError>)
    ensures r.Success? ==> Trimmed(r.value.message)
    ensures r.Failure? && r.error.WrongPartCount? ==> r.error.parts != 2 && r.error.parts >= 1
    ensures r.Failure? && r.error.NotAnInteger? ==> ParseInt(Strip(r.error.text)) == None
  {
    var parts := Split(Strip(text), Separator);
    if |parts| != 2 then Failure(WrongPartCount(|parts|))
    else
      match ParseInt(Strip(parts[1]))
      case None => Failure(NotAnInteger(parts[1]))
      case Some(days) => Success(Request(Strip(parts[0]), days))
  }

  /** m ends with the separator minus its last space. */
  predicate EndsInSeparatorHead(m: string) {
    |m| >= 6 && m[|m| - 6..] == Separator[..6]
  }

  /** rest starts with the separator minus its first space. */
  predicate StartsWithSeparatorTail(rest: string) {
    |rest| >= 6 && rest[..6] == Separator[1..]
  }

  /**
   * Where the separator can occur in m + Separator + rest. Its only
   * self-overlap is the shared space, so an occurrence other than the one
   * in the middle lies inside m, inside rest, or reaches across the middle
   * one by sharing a space with it.
   */
  lemma SeparatorOnlyAt(m: string, rest: string)
    requires Free(m, Separator) && !EndsInSeparatorHead(m)
    requires Free(rest, Separator) && !StartsWithSeparatorTail(rest)
    ensures OccursAt(m + Separator + rest, Separator, |m|)
    ensures forall j :: j != |m| ==> !OccursAt(m + Separator + rest, Separator, j)
  {
    var t := m + Separator + rest;
    var n := |m|;
    assert t[n..n + 7] == Separator;
    forall j | j != n
      ensures !OccursAt(t, Separator, j)
    {
      if j < 0 || |t| < j + 7 {
      } else if j + 7 <= n {
        assert t[j..j + 7] == m[j..j + 7];
        assert !OccursAt(m, Separator, j);
      } else if j == n - 6 {
        assert t[j..j + 7][..6] == m[n - 6..];
      } else if j < n {
        assert t[j..j + 7][n - j] == ' ';
      } else if j < n + 6 {
        assert t[j..j + 7][0] == Separator[j - n];
      } else if j == n + 6 {
        assert t[j..j + 7][1..] == rest[..6];
      } else {
        assert t[j..j + 7] == rest[j - n - 7..j - n];
        assert !OccursAt(rest, Separator, j - n - 7);
      }
    }
  }

  /** A stripped text whose first character is not whitespace keeps it. */
  lemma StripKeepsFirst(s: string)
    requires s != [] && !IsSpace(s[0])
    ensures Strip(s) != [] && Strip(s)[0] == s[0]
  {
    assert !AllSpace(s);
    var r := Strip(s);
    StripIsSlice(s);
    var a: nat :| a + |r| <= |s| && AllSpace(s[..a]) && s[a..a + |r|] == r && AllSpace(s[a + |r|..]);
    assert r[0] == s[a..a + |r|][0];
  }

  /**
   * Sufficiency: when the separator occurs exactly once in the stripped
   * text, the message is the stripped text before it and the day count is
   * int() of the stripped text after it.
   */
  lemma ParseOneSeparator(text: string, i: int)
    requires Occurrences(Strip(text), Separator) == {i}
    ensures var t := Strip(text);
      Parse(text) ==
        match ParseInt(Strip(t[i + 7..]))
        case None => Failure(NotAnInteger(t[i + 7..]))
        case Some(n) => Success(Request(Strip(t[..i]), n))
  {
    var t := Strip(text);
    assert i in Occurrences(t, Separator);
    forall j | j != i ensures !OccursAt(t, Separator, j) {
      assert OccursAt(t, Separator, j) ==> j in Occurrences(t, Separator);
    }
    SplitOnce(t, Separator, i);
  }

  /** A text with no separator in it is refused, as one part. */
  lemma ParseNoSeparator(text: string)
    requires Occurrences(Strip(text), Separator) == {}
    ensures Parse(text) == Failure(WrongPartCount(1))
  {
    var t := Strip(text);
    forall j ensures !OccursAt(t, Separator, j) {
      assert OccursAt(t, Separator, j) ==> j in Occurrences(t, Separator);
    }
    SplitFree(t, Separator);
  }

  /** A separator head just before a space is an occurrence of the separator. */
  lemma HeadBeforeSpace(t: string, i: int)
    requires 0 <= i < |t| && t[i] == ' '
    ensures EndsInSeparatorHead(t[..i]) ==> OccursAt(t, Separator, i - 6)
  {
    if EndsInSeparatorHead(t[..i]) {
      forall k | 0 <= k < 7 ensures t[i - 6..i + 1][k] == Separator[k] {
        if k < 6 { assert t[i - 6..i + 1][k] == t[..i][i - 6..][k]; }
      }
      assert t[i - 6..i + 1] == Separator;
    }
  }

  /** Text that starts with the rest of the separator is not an integer once stripped. */
  lemma SeparatorTailNotInt(b: string)
    ensures StartsWithSeparatorTail(b) ==> ParseInt(Strip(b)) == None
  {
    if StartsWithSeparatorTail(b) {
      assert b[0] == Separator[1];
      StripKeepsFirst(b);
      assert !IsIntChar(Strip(b)[0]);
    }
  }

  /**
   * A split into two parts whose second part reads as an integer comes
   * from text holding exactly one occurrence of the separator.
   */
  lemma TwoPartsOneSeparator(t: string)
    requires |Split(t, Separator)| == 2
    requires ParseInt(Strip(Split(t, Separator)[1])).Some?
    ensures Occurrences(t, Separator) == {IndexOf(t, Separator)}
  {
    SplitInTwo(t, Separator);
    var i := IndexOf(t, Separator);
    var a, b := t[..i], t[i + 7..];
    HeadBeforeSpace(t, i);
    assert !EndsInSeparatorHead(a);
    SeparatorTailNotInt(b);
    SeparatorOnlyAt(a, b);
    assert a + Separator + b == t;
  }

  /**
   * Necessity: a submission is accepted only when the stripped text holds
   * exactly one occurrence of the separator, overlapping occurrences
   * counted. Zero occurrences, or two or more, are refused.
   */
  lemma ParsedHasOneSeparator(text: string)
    requires Parse(text).Success?
    ensures var t := Strip(text); Occurrences(t, Separator) == {IndexOf(t, Separator)}
  {
    var t := Strip(text);
    var parts := Split(t, Separator);
    assert |parts| == 2 && ParseInt(Strip(parts[1])).Some?;
    TwoPartsOneSeparator(t);
  }

  /**
   * An accepted message is the stripped text before the separator, and its
   * day count is int() of the stripped text after it.
   */
  lemma ParsedParts(text: string)
    requires Parse(text).Success?
    ensures var t := Strip(text); var i := IndexOf(t, Separator); var req := Parse(text).value;
      && 0 <= i
      && req.message == Strip(t[..i])
      && ParseInt(Strip(t[i + 7..])) == Some(req.days)
  {
    SplitInTwo(Strip(text), Separator);
  }

  /** An accepted message is never empty and carries no whitespace at either end. */
  lemma ParsedMessageTrimmed(text: string)
    requires Parse(text).Success?
    ensures Parse(text).value.message != []
    ensures Trimmed(Parse(text).value.message)
  {
    var t := Strip(text);
    ParsedParts(text);
    var i := IndexOf(t, Separator);
    assert t[i] == Separator[0];
    assert t[..i][0] == t[0];
    StripKeepsFirst(t[..i]);
  }

  /** What str() writes for a day count holds no separator and no space at either end. */
  lemma ShowIntShape(n: int)
    ensures ShowInt(n) != [] && Trimmed(ShowInt(n))
    ensures Free(ShowInt(n), Separator) && !StartsWithSeparatorTail(ShowInt(n))
  {
    var s := ShowInt(n);
    assert forall k :: 0 <= k < |s| ==> s[k] == '-' || IsDigit(s[k]);
    forall j ensures !OccursAt(s, Separator, j) {
      if 0 <= j && j + 7 <= |s| {
        assert s[j..j + 7][0] == s[j];
      }
    }
  }

  /**
   * If the separator occurs only at i in the stripped text and int() reads
   * n after it, the text is accepted with the stripped text before i.
   */
  lemma ParseOneSeparatorInt(text: string, i: int, n: int)
    requires Occurrences(Strip(text), Separator) == {i}
    requires ParseInt(Strip(Strip(text)[i + 7..])) == Some(n)
    ensures Parse(text) == Success(Request(Strip(Strip(text)[..i]), n))
  {
    ParseOneSeparator(text, i);
  }

  /**
   * The text m + Separator + rest, for pieces that neither hold nor can
   * complete the separator, is trimmed and holds the separator only after m.
   */
  lemma JoinedShape(m: string, rest: string)
    requires m != [] && Trimmed(m)
    requires Free(m, Separator) && !EndsInSeparatorHead(m)
    requires rest != [] && Trimmed(rest)
    requires Free(rest, Separator) && !StartsWithSeparatorTail(rest)
    ensures var t := m + Separator + rest;
      && Trimmed(t)
      && Occurrences(t, Separator) == {|m|}
      && t[..|m|] == m
      && t[|m| + 7..] == rest
  {
    var t := m + Separator + rest;
    SeparatorOnlyAt(m, rest);
    assert t[0] == m[0];
    assert t[|t| - 1] == rest[|rest| - 1];
  }

  /**
   * Round trip: writing a trimmed message, the separator and a day count
   * with str(), then parsing, gives back the message and the day count,
   * negative counts included. The message must not contain the separator
   * or end in a way that lets the separator start early.
   */
  lemma ParseRender(m: string, days: int)
    requires m != [] && Trimmed(m)
    requires Free(m, Separator) && !EndsInSeparatorHead(m)
    ensures Parse(m + Separator + ShowInt(days)) == Success(Request(m, days))
  {
    var s := ShowInt(days);
    var t := m + Separator + s;
    ShowIntShape(days);
    JoinedShape(m, s);
    StripTrimmed(t);
    StripTrimmed(s);
    ParseShowInt(days);
    ParseOneSeparatorInt(t, |m|, days);
    StripTrimmed(m);
  }

  /** A six-letter word that is not " через" cannot hold or end in the separator. */
  lemma PrivetClear()
    ensures Trimmed("Привет") && Free("Привет", Separator) && !EndsInSeparatorHead("Привет")
  {
    assert "Привет"[0] != Separator[0];
  }

  /** The example of the prompt itself is accepted. */
  lemma ExampleAccepted(text: string)
    requires text == "Привет через 365"
    ensures Parse(text) == Success(Request("Привет", 365))
  {
    PrivetClear();
    assert ShowInt(365) == "365";
    assert text == "Привет" + Separator + ShowInt(365);
    ParseRender("Привет", 365);
  }

  /** A negative day count passes: int() accepts the sign and nothing checks it. */
  lemma NegativeDaysAccepted(text: string)
    requires text == "Привет через -1"
    ensures Parse(text) == Success(Request("Привет", -1))
  {
    PrivetClear();
    assert ShowInt(-1) == "-1";
    assert text == "Привет" + Separator + ShowInt(-1);
    ParseRender("Привет", -1);
  }

  /**
   * A text of the same shape whose second piece int() does not accept is
   * refused, and the error carries that piece.
   */
  lemma JoinedNotAnInteger(m: string, rest: string)
    requires m != [] && Trimmed(m)
    requires Free(m, Separator) && !EndsInSeparatorHead(m)
    requires rest != [] && Trimmed(rest)
    requires Free(rest, Separator) && !StartsWithSeparatorTail(rest)
    requires ParseInt(rest) == None
    ensures Parse(m + Separator + rest) == Failure(NotAnInteger(rest))
  {
    var t := m + Separator + rest;
    JoinedShape(m, rest);
    StripTrimmed(t);
    StripTrimmed(rest);
    ParseOneSeparator(t, |m|);
  }

  /** "abc" is a piece int() refuses that neither holds nor completes the separator. */
  lemma AbcShape(b: string)
    requires b == "abc"
    ensures b != [] && Trimmed(b) && ParseInt(b) == None
    ensures Free(b, Separator) && !StartsWithSeparatorTail(b)
  {
    assert !IsIntChar(b[0]);
    forall j ensures !OccursAt(b, Separator, j) {}
  }

  /** A day count that is not an integer is refused. */
  lemma NonNumericRefused(t: string)
    requires t == "Привет через abc"
    ensures Parse(t) == Failure(NotAnInteger("abc"))
  {
    var rest := "abc";
    AbcShape(rest);
    PrivetClear();
    assert t == "Привет" + Separator + rest;
    JoinedNotAnInteger("Привет", rest);
  }

  /**
   * What handle_message does with the outcome of its parse: a request
   * saves one capsule for this chat, due `days` days after now, and gets
   * the confirmation; a refusal gets the format prompt and changes nothing.
   */
  method Respond(store: Store, chatId: int, parsed: Result<Request, ParseError>, now: int, fmt: int -> string)
    returns (reply: string, ghost saved: Option<nat>)
    requires store.Valid()
    modifies store
    ensures store.Valid() && store.outbox == old(store.outbox)
    ensures parsed.Failure? ==>
      saved == None && reply == FormatPrompt && unchanged(store)
    ensures parsed.Success? ==>
      var sendDate := now + parsed.value.days * MicrosPerDay;
      && saved.Some?
      && saved.value !in old(store.capsules)
      && store.capsules == old(store.capsules)[saved.value := Capsule(saved.value, chatId, parsed.value.message, sendDate)]
      && reply == Confirmation(parsed.value.message, fmt(sendDate))
  {
    if parsed.Failure? {
      reply, saved := FormatPrompt, None;
    } else {
      var req := parsed.value;
      var sendDate := now + req.days * MicrosPerDay;
      var id := store.SaveCapsule(chatId, req.message, sendDate);
      reply, saved := Confirmation(req.message, fmt(sendDate)), Some(id);
    }
  }

  /**
   * handle_message at time now for the chat chatId. A well-formed text
   * saves one capsule for this chat with the parsed message, due `days`
   * days after now, and returns the confirmation; anything else returns
   * the format prompt and changes nothing.
   */
  method HandleMessage(store: Store, chatId: int, text: string, now: int, fmt: int -> string)
    returns (reply: string, ghost saved: Option<nat>)
    requires store.Valid()
    modifies store
    ensures store.Valid() && store.outbox == old(store.outbox)
    ensures Parse(text).Failure? ==>
      saved == None && reply == FormatPrompt && unchanged(store)
    ensures Parse(text).Success? ==>
      var req := Parse(text).value;
      var sendDate := now + req.days * MicrosPerDay;
      && saved.Some?
      && saved.value !in old(store.capsules)
      && store.capsules == old(store.capsules)[saved.value := Capsule(saved.value, chatId, req.message, sendDate)]
      && reply == Confirmation(req.message, fmt(sendDate))
  {
    reply, saved := Respond(store, chatId, Parse(text), now, fmt);
  }
}
