/**
  The field decoder parseString (sps.c:111-153).

  A field is scanned left to right with two flags, `quoted` and `escaped`.
  `Scan` gives the meaning of one scan from position `i` with the flags and
  the bytes decoded so far; its branches are the decoder's, in the same
  order.  `ParseString` is the decoder's loop, proved to compute `Decode`.
 */
module Fields {
  import opened CStrings

  /**
    The outcome of decoding one field: its value and the index of the byte
    that ended it, or a malformed field with the bytes decoded before the
    error (the decoder then returns 0 and leaves its buffer unterminated).
   */
  datatype FieldScan = Field(value: string, end: nat) | Malformed(partial: string)

  /** A byte that may end a field: the terminator, a newline or a delimiter. */
  predicate IsTerminator(c: char, delims: string) {
    c == '\0' || c == '\n' || StrChr(delims, c)
  }

  function Scan(src: string, delims: string, i: nat, quoted: bool, escaped: bool, acc: string): FieldScan
    decreases |src| - i
  {
    var c := At(src, i);
    if c == '\0' then
      if quoted then Malformed(acc) else Field(acc, i)
    else if c == '\\' && !escaped then
      Scan(src, delims, i + 1, quoted, true, acc)
    else if c == '"' && i == 0 then
      Scan(src, delims, i + 1, true, escaped, acc)
    else if c == '"' && !escaped && quoted then
      Scan(src, delims, i + 1, false, escaped, acc)
    else if StrChr(delims, c) && !escaped && !quoted then
      Field(acc, i)
    else if c == '\n' then
      if escaped || quoted then Malformed(acc) else Field(acc, i)
    else
      Scan(src, delims, i + 1, quoted, false, acc + [c])
  }

  /**
    A successful scan stops at a terminator inside the buffer, never decodes
    more bytes than it read, and never yields a NUL or a newline.
   */
  lemma {:induction false} ScanEnds(src: string, delims: string, i: nat, quoted: bool, escaped: bool, acc: string)
    requires i <= |src| && |acc| <= i
    requires NoNul(acc) && '\n' !in acc
    ensures var r := Scan(src, delims, i, quoted, escaped, acc);
      r.Field? ==>
        && i <= r.end <= |src| && |r.value| <= r.end
        && IsTerminator(At(src, r.end), delims)
        && acc <= r.value && NoNul(r.value) && '\n' !in r.value
    decreases |src| - i
  {
    var c := At(src, i);
    if c == '\0' {
    } else if c == '\\' && !escaped {
      ScanEnds(src, delims, i + 1, quoted, true, acc);
    } else if c == '"' && i == 0 {
      ScanEnds(src, delims, i + 1, true, escaped, acc);
    } else if c == '"' && !escaped && quoted {
      ScanEnds(src, delims, i + 1, false, escaped, acc);
    } else if StrChr(delims, c) && !escaped && !quoted {
    } else if c == '\n' {
    } else {
      ScanEnds(src, delims, i + 1, quoted, false, acc + [c]);
    }
  }

  /**
    parseString's result on `src`: on success the decoded value and the
    index of the terminating byte (NUL, newline or delimiter).
   */
  function Decode(src: string, delims: string): FieldScan {
    Scan(src, delims, 0, false, false, [])
  }

  /**
    A decoded field ends at a terminator inside the buffer, and its value
    is no longer than the bytes read and holds no NUL and no newline.
   */
  lemma DecodeEnds(src: string, delims: string)
    ensures var r := Decode(src, delims);
      r.Field? ==>
        && r.end <= |src| && |r.value| <= r.end
        && IsTerminator(At(src, r.end), delims)
        && NoNul(r.value) && '\n' !in r.value
  {
    ScanEnds(src, delims, 0, false, false, []);
  }

  /** The value parseString returns: the terminator's index, or 0 on error. */
  function Shift(d: FieldScan): nat {
    if d.Field? then d.end else 0
  }

  /** The bytes parseString has written into its destination buffer. */
  function Text(d: FieldScan): string {
    if d.Field? then d.value else d.partial
  }

  /** parseString: the decoder's loop over the flags `isQuoted` and `isEscaped`. */
  method ParseString(src: string, delims: string) returns (dst: string, shift: nat)
    ensures shift == Shift(Decode(src, delims))
    ensures dst == Text(Decode(src, delims))
  {
    var srcIndex: nat := 0;
    var isQuoted, isEscaped := false, false;
    dst := [];
    while At(src, srcIndex) != '\0'
      invariant srcIndex <= |src|
      invariant Scan(src, delims, srcIndex, isQuoted, isEscaped, dst) == Decode(src, delims)
      decreases |src| - srcIndex
    {
      var c := src[srcIndex];
      if c == '\\' && !isEscaped {
        isEscaped := true;
      } else if c == '"' && srcIndex == 0 {
        isQuoted := true;
      } else if c == '"' && !isEscaped && isQuoted {
        isQuoted := false;
      } else if StrChr(delims, c) && !isEscaped && !isQuoted {
        break;
      } else if c == '\n' {
        if isEscaped || isQuoted {
          shift := 0;
          return;
        }
        break;
      } else {
        dst := dst + [c];
        isEscaped := false;
      }
      srcIndex := srcIndex + 1;
    }
    if isQuoted {
      shift := 0;
      return;
    }
    shift := srcIndex;
  }

  // ---------- The decoding rules, one step at a time ----------

  /** A backslash makes the next byte (other than a newline) be copied literally. */
  lemma EscapeCopiesNext(src: string, delims: string, i: nat, quoted: bool, acc: string)
    requires At(src, i) == '\\'
    requires At(src, i + 1) != '\0' && At(src, i + 1) != '\n'
    ensures Scan(src, delims, i, quoted, false, acc)
         == Scan(src, delims, i + 2, quoted, false, acc + [At(src, i + 1)])
  {
  }

  /** A newline after a backslash makes the field malformed, inside quotes or not. */
  lemma EscapedNewlineFails(src: string, delims: string, i: nat, quoted: bool, acc: string)
    requires At(src, i) == '\\' && At(src, i + 1) == '\n'
    ensures Scan(src, delims, i, quoted, false, acc).Malformed?
  {
  }

  /** A newline inside quotes makes the field malformed. */
  lemma QuotedNewlineFails(src: string, delims: string, i: nat, acc: string)
    requires At(src, i) == '\n'
    ensures Scan(src, delims, i, true, false, acc).Malformed?
  {
  }

  /**
    Only the first byte opens quoting: a later unescaped quote outside quotes
    is an ordinary byte (unless it is a delimiter), and one inside quotes
    closes them.
   */
  lemma QuoteRules(src: string, delims: string, i: nat, acc: string)
    requires 0 < i && At(src, i) == '"'
    ensures !StrChr(delims, '"') ==>
      Scan(src, delims, i, false, false, acc) == Scan(src, delims, i + 1, false, false, acc + ['"'])
    ensures Scan(src, delims, i, true, false, acc) == Scan(src, delims, i + 1, false, false, acc)
  {
  }

  /** Inside quotes a delimiter is copied rather than ending the field. */
  lemma DelimiterInQuotesCopied(src: string, delims: string, i: nat, acc: string)
    requires 0 < i
    requires var c := At(src, i); c != '\0' && c != '\\' && c != '"' && c != '\n' && StrChr(delims, c)
    ensures Scan(src, delims, i, true, false, acc) == Scan(src, delims, i + 1, true, false, acc + [At(src, i)])
  {
  }

  /** An opening quote that is never closed makes the field malformed. */
  lemma {:induction false} UnclosedQuoteFails(src: string, delims: string, i: nat, escaped: bool, acc: string)
    requires 0 < i <= |src|
    requires forall k :: i <= k < |src| ==> src[k] != '"' && src[k] != '\n'
    ensures Scan(src, delims, i, true, escaped, acc).Malformed?
    decreases |src| - i
  {
    var c := At(src, i);
    if c == '\0' {
    } else if c == '\\' && !escaped {
      UnclosedQuoteFails(src, delims, i + 1, true, acc);
    } else {
      UnclosedQuoteFails(src, delims, i + 1, false, acc + [c]);
    }
  }

  // ---------- Reference definitions for plain and quoted fields ----------

  /** A byte that decodes to itself outside quotes. */
  predicate PlainByte(c: char, delims: string) {
    c != '\\' && c != '"' && !IsTerminator(c, delims)
  }

  /** A byte that decodes to itself inside quotes. */
  predicate QuotableByte(c: char) {
    c != '\\' && c != '"' && c != '\n' && c != '\0'
  }

  /** A terminator that cannot be mistaken for an escape or a quote. */
  predicate CleanEnd(c: char, delims: string) {
    c != '\\' && c != '"' && IsTerminator(c, delims)
  }

  lemma {:induction false} PlainScan(src: string, delims: string, n: nat, i: nat)
    requires i <= n <= |src|
    requires forall k :: 0 <= k < n ==> PlainByte(src[k], delims)
    requires CleanEnd(At(src, n), delims)
    ensures Scan(src, delims, i, false, false, src[..i]) == Field(src[..n], n)
    decreases n - i
  {
    if i < n {
      assert src[..i] + [src[i]] == src[..i + 1];
      PlainScan(src, delims, n, i + 1);
    }
  }

  /** A field of plain bytes decodes to those bytes, ending at its terminator. */
  lemma PlainField(src: string, delims: string, n: nat)
    requires n <= |src|
    requires forall k :: 0 <= k < n ==> PlainByte(src[k], delims)
    requires CleanEnd(At(src, n), delims)
    ensures Decode(src, delims) == Field(src[..n], n)
  {
    PlainScan(src, delims, n, 0);
  }

  lemma {:induction false} QuotedScan(src: string, delims: string, body: string, i: nat)
    requires |body| + 2 <= |src| && src[0] == '"' && src[|body| + 1] == '"'
    requires src[1..|body| + 1] == body
    requires forall k :: 0 <= k < |body| ==> QuotableByte(body[k])
    requires CleanEnd(At(src, |body| + 2), delims)
    requires 1 <= i <= |body| + 1
    ensures Scan(src, delims, i, true, false, body[..i - 1]) == Field(body, |body| + 2)
    decreases |body| + 1 - i
  {
    if i <= |body| {
      assert src[i] == body[i - 1];
      assert body[..i - 1] + [body[i - 1]] == body[..i];
      QuotedScan(src, delims, body, i + 1);
    } else {
      assert body[..i - 1] == body;
    }
  }

  /**
    A field wrapped in quotes decodes to the bytes between them, whatever
    delimiters those contain.
   */
  lemma QuotedField(src: string, delims: string, body: string)
    requires |body| + 2 <= |src| && src[0] == '"' && src[|body| + 1] == '"'
    requires src[1..|body| + 1] == body
    requires forall k :: 0 <= k < |body| ==> QuotableByte(body[k])
    requires CleanEnd(At(src, |body| + 2), delims)
    ensures Decode(src, delims) == Field(body, |body| + 2)
  {
    QuotedScan(src, delims, body, 1);
  }
}
