/**
 * The TextFile utilities over what has already been read: the line-ending
 * classification of a text, and the byte-order-mark table over the first
 * bytes of a file.
 */
module TextFiles {
  import opened Wrappers
  import opened Strings

  // ------------------------------------------------------------- line endings

  /**
   * `new Regex(Regex.Escape(pattern)).Matches(s).Count`: a left-to-right scan
   * counting the non-overlapping occurrences of the literal pattern.
   */
  function Matches(s: string, pattern: string): nat
    requires |pattern| > 0
    decreases |s|
  {
    if StartsWith(s, pattern) then 1 + Matches(s[|pattern|..], pattern)
    else if s == [] then 0
    else Matches(s[1..], pattern)
  }

  /**
   * Position `i` of `s` holds a line feed, and a carriage return comes just
   * before it exactly when `cr` holds; `afterCr` says whether the text before
   * `s` ended with a carriage return.
   */
  predicate LineFeedAt(s: string, i: nat, afterCr: bool, cr: bool)
    requires i < |s|
  {
    s[i] == '\n' && (if i == 0 then afterCr else s[i - 1] == '\r') == cr
  }

  /** The text has a CR LF pair. */
  predicate HasCrLf(s: string) {
    exists i :: 0 <= i < |s| && LineFeedAt(s, i, false, true)
  }

  /** The text has a line feed without a carriage return before it. */
  predicate HasBareLf(s: string) {
    exists i :: 0 <= i < |s| && LineFeedAt(s, i, false, false)
  }

  /** The number of positions where LineFeedAt holds. */
  function LineFeeds(s: string, afterCr: bool, cr: bool): nat
    decreases |s|
  {
    if s == [] then 0
    else (if s[0] == '\n' && afterCr == cr then 1 else 0) + LineFeeds(s[1..], s[0] == '\r', cr)
  }

  /**
   * DetectLineEnding over the text of the file: the CR LF count, and the LF
   * count less the CR LF count, decide; both kinds, or neither, throw.
   */
  function DetectLineEnding(text: string): Result<string> {
    var crlfCount := Matches(text, "\r\n");
    var lfCount := Matches(text, "\n") - crlfCount;
    if crlfCount > 0 && lfCount > 0 then Err(MixedLineEndings)
    else if crlfCount > 0 then Ok("\r\n")
    else if lfCount > 0 then Ok("\n")
    else Err(NoLineEndings)
  }

  /** Counting the one-character pattern counts that character. */
  lemma {:induction false} NewlineMatches(s: string)
    ensures Matches(s, "\n") == Occurrences(s, '\n')
    decreases |s|
  {
    if s != [] {
      NewlineMatches(s[1..]);
      assert StartsWith(s, "\n") <==> s[0] == '\n';
    }
  }

  /** Every line feed is either preceded by a carriage return or not. */
  lemma {:induction false} NewlinesSplit(s: string, afterCr: bool)
    ensures Occurrences(s, '\n') == LineFeeds(s, afterCr, true) + LineFeeds(s, afterCr, false)
    decreases |s|
  {
    if s != [] {
      NewlinesSplit(s[1..], s[0] == '\r');
    }
  }

  /** Whether a carriage return came before only matters when the text starts with a line feed. */
  lemma CrLfNotAtStart(s: string)
    requires s == [] || s[0] != '\n'
    ensures LineFeeds(s, true, true) == LineFeeds(s, false, true)
  {
  }

  /** The scan for CR LF counts exactly the line feeds preceded by a carriage return. */
  lemma {:induction false} CrLfMatches(s: string)
    ensures Matches(s, "\r\n") == LineFeeds(s, false, true)
    decreases |s|
  {
    if StartsWith(s, "\r\n") {
      CrLfMatches(s[2..]);
      assert s[0] == '\r' && s[1] == '\n';
      assert s[1..][1..] == s[2..];
      assert LineFeeds(s[1..], true, true) == 1 + LineFeeds(s[2..], false, true);
    } else if s != [] {
      CrLfMatches(s[1..]);
      if s[0] == '\r' {
        assert s[1..] == [] || s[1..][0] != '\n';
        CrLfNotAtStart(s[1..]);
      }
    }
  }

  /** LineFeeds counts something exactly when some position satisfies LineFeedAt. */
  lemma {:induction false} LineFeedsExist(s: string, afterCr: bool, cr: bool)
    ensures LineFeeds(s, afterCr, cr) > 0 <==> exists i :: 0 <= i < |s| && LineFeedAt(s, i, afterCr, cr)
    decreases |s|
  {
    if s != [] {
      var t := s[1..];
      var b := s[0] == '\r';
      LineFeedsExist(t, b, cr);
      forall j | 0 <= j < |t| ensures LineFeedAt(t, j, b, cr) <==> LineFeedAt(s, j + 1, afterCr, cr) {
        assert t[j] == s[j + 1];
        if j > 0 {
          assert t[j - 1] == s[j];
        }
      }
      if exists i :: 0 <= i < |s| && LineFeedAt(s, i, afterCr, cr) {
        var i :| 0 <= i < |s| && LineFeedAt(s, i, afterCr, cr);
        if i > 0 {
          assert LineFeedAt(t, i - 1, b, cr);
        }
      }
      if s[0] == '\n' && afterCr == cr {
        assert LineFeedAt(s, 0, afterCr, cr);
      } else if LineFeeds(t, b, cr) > 0 {
        var j :| 0 <= j < |t| && LineFeedAt(t, j, b, cr);
        assert LineFeedAt(s, j + 1, afterCr, cr);
      }
    }
  }

  /** The two counts of DetectLineEnding are the CR LF pairs and the bare line feeds. */
  lemma LineEndingCounts(text: string)
    ensures Matches(text, "\r\n") == LineFeeds(text, false, true)
    ensures Matches(text, "\n") - Matches(text, "\r\n") == LineFeeds(text, false, false)
    ensures Matches(text, "\r\n") > 0 <==> HasCrLf(text)
    ensures Matches(text, "\n") - Matches(text, "\r\n") > 0 <==> HasBareLf(text)
  {
    CrLfMatches(text);
    NewlineMatches(text);
    NewlinesSplit(text, false);
    LineFeedsExist(text, false, true);
    LineFeedsExist(text, false, false);
  }

  /**
   * DetectLineEnding answers CR LF for text whose line feeds all follow a
   * carriage return, LF for text whose line feeds follow none, and fails on
   * text with both kinds or with no line feed at all.
   */
  lemma DetectLineEndingSpec(text: string)
    ensures DetectLineEnding(text) == Ok("\r\n") <==> HasCrLf(text) && !HasBareLf(text)
    ensures DetectLineEnding(text) == Ok("\n") <==> HasBareLf(text) && !HasCrLf(text)
    ensures DetectLineEnding(text) == Err(MixedLineEndings) <==> HasCrLf(text) && HasBareLf(text)
    ensures DetectLineEnding(text) == Err(NoLineEndings) <==> !HasCrLf(text) && !HasBareLf(text)
  {
    LineEndingCounts(text);
  }

  /** Text without a line feed has no line endings, whatever carriage returns it holds. */
  lemma NoLineFeed(text: string)
    requires '\n' !in text
    ensures DetectLineEnding(text) == Err(NoLineEndings)
  {
    DetectLineEndingSpec(text);
  }

  // ------------------------------------------------------- byte order marks

  newtype byte = x: int | 0 <= x < 256

  /** The encodings GetEncoding can answer. */
  datatype Encoding = UTF7 | UTF8 | UTF32LE | UTF16LE | UTF16BE | UTF32BE

  /** The byte-order mark GetEncoding looks for, per encoding. */
  function Mark(e: Encoding): seq<byte> {
    match e
    case UTF7 => [0x2B, 0x2F, 0x76]
    case UTF8 => [0xEF, 0xBB, 0xBF]
    case UTF32LE => [0xFF, 0xFE, 0x00, 0x00]
    case UTF16LE => [0xFF, 0xFE]
    case UTF16BE => [0xFE, 0xFF]
    case UTF32BE => [0x00, 0x00, 0xFE, 0xFF]
  }

  /**
   * GetEncoding over the bytes of the file: no answer when fewer than four
   * bytes can be read; otherwise the marks are tried in order, and null
   * (None) when none matches.
   */
  function GetEncoding(content: seq<byte>): Option<Encoding> {
    if |content| < 4 then None
    else
      var b0, b1, b2, b3 := content[0], content[1], content[2], content[3];
      if b0 == 0x2B && b1 == 0x2F && b2 == 0x76 then Some(UTF7)
      else if b0 == 0xEF && b1 == 0xBB && b2 == 0xBF then Some(UTF8)
      else if b0 == 0xFF && b1 == 0xFE && b2 == 0 && b3 == 0 then Some(UTF32LE)
      else if b0 == 0xFF && b1 == 0xFE then Some(UTF16LE)
      else if b0 == 0xFE && b1 == 0xFF then Some(UTF16BE)
      else if b0 == 0 && b1 == 0 && b2 == 0xFE && b3 == 0xFF then Some(UTF32BE)
      else None
  }

  /**
   * An answer names an encoding whose mark starts the file; a UTF-16LE
   * answer means the mark is not followed by two zero bytes.
   */
  lemma EncodingHasMark(content: seq<byte>)
    ensures var r := GetEncoding(content);
      && (r.Some? ==> |content| >= 4 && Mark(r.value) <= content)
      && (r == Some(UTF16LE) ==> !(content[2] == 0 && content[3] == 0))
  {
  }

  /** A file of at least four bytes gets an answer exactly when some mark starts it. */
  lemma EncodingFound(content: seq<byte>)
    ensures GetEncoding(content).Some? <==> |content| >= 4 && exists e :: Mark(e) <= content
  {
    EncodingHasMark(content);
    if |content| >= 4 && exists e :: Mark(e) <= content {
      var e :| Mark(e) <= content;
      assert content[0] == Mark(e)[0] && content[1] == Mark(e)[1];
      if |Mark(e)| > 2 {
        assert content[2] == Mark(e)[2];
      }
      if |Mark(e)| > 3 {
        assert content[3] == Mark(e)[3];
      }
    }
  }

  /**
   * A file that starts with a mark is recognised as that encoding when it has
   * four bytes, except that a UTF-16LE mark followed by two zero bytes reads
   * as the UTF-32LE mark.
   */
  lemma MarkRecognised(e: Encoding, rest: seq<byte>)
    requires |Mark(e)| + |rest| >= 4
    requires e == UTF16LE ==> !(rest[0] == 0 && rest[1] == 0)
    ensures GetEncoding(Mark(e) + rest) == Some(e)
  {
    var content := Mark(e) + rest;
    assert content[0] == Mark(e)[0] && content[1] == Mark(e)[1];
    if |Mark(e)| > 2 {
      assert content[2] == Mark(e)[2];
    } else {
      assert content[2] == rest[0] && content[3] == rest[1];
    }
    if |Mark(e)| > 3 {
      assert content[3] == Mark(e)[3];
    }
  }

  /** The UTF-32LE test comes first, so a UTF-16LE file starting with a NUL character reads as UTF-32LE. */
  lemma LeadingNulReadsAsUtf32(rest: seq<byte>)
    ensures GetEncoding(Mark(UTF16LE) + [0, 0] + rest) == Some(UTF32LE)
  {
    var content := Mark(UTF16LE) + [0, 0] + rest;
    assert content[0] == 0xFF && content[1] == 0xFE && content[2] == 0 && content[3] == 0;
  }

  /** A file holding only a three-byte mark is too short for an answer. */
  lemma BareMarkUnrecognised(e: Encoding)
    requires |Mark(e)| < 4
    ensures GetEncoding(Mark(e)) == None
  {
  }
}
