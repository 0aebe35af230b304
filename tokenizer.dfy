/**
 * The statement parser and the meta-command check (`Statement::prepare_statement`
 * and `do_meta_command`, src/tokenizer.rs; src/main.rs holds the same code).
 *
 * Input text is modelled as its UTF-8 bytes, so a token's `len()` is its
 * length here and `as_bytes()` is the token itself.
 */
module Tokenizer {
  import opened Constants
  import opened Wrappers
  import opened RowCodec

  const SPACE: u8 := 32
  const PLUS: u8 := 43
  const MINUS: u8 := 45
  /** "insert" */
  const INSERT: seq<u8> := [105, 110, 115, 101, 114, 116]
  /** "select" */
  const SELECT: seq<u8> := [115, 101, 108, 101, 99, 116]
  /** ".exit" */
  const EXIT: seq<u8> := [46, 101, 120, 105, 116]

  datatype StatementType = Insert | Select

  datatype Statement = Statement(stype: StatementType, row: Option<Row>)

  /** `enum PrepareError`: each variant keeps the offending token and the whole input. */
  datatype PrepareError =
    | UnrecognizedStatement(statement: seq<u8>, input: seq<u8>)
    | InvalidInput(input: seq<u8>)
    | InvalidId(id: seq<u8>, input: seq<u8>)
    | NegativeNumber(id: seq<u8>, input: seq<u8>)
    | UsernameTooLong(username: seq<u8>, input: seq<u8>)
    | EmailTooLong(email: seq<u8>, input: seq<u8>)

  datatype MetaCommandError = UnrecognizedCommand(meta: seq<u8>, input: seq<u8>)

  // ---------------------------------------------------------------------------
  // Splitting on whitespace
  // ---------------------------------------------------------------------------

  /** `char::is_whitespace` on the ASCII range: tab, line feed, vertical tab, form feed, carriage return, space. */
  predicate IsWhitespace(c: u8) {
    c == SPACE || 9 <= c <= 13
  }

  /** A token `split_whitespace` can yield: non-empty, with no whitespace in it. */
  predicate IsWord(w: seq<u8>) {
    |w| > 0 && forall i :: 0 <= i < |w| ==> !IsWhitespace(w[i])
  }

  /** The length of the longest whitespace-free prefix of `s`. */
  function WordLength(s: seq<u8>): (n: nat)
    ensures n <= |s|
    ensures forall i :: 0 <= i < n ==> !IsWhitespace(s[i])
    ensures n < |s| ==> IsWhitespace(s[n])
  {
    if s == [] || IsWhitespace(s[0]) then 0 else 1 + WordLength(s[1..])
  }

  /** `str::split_whitespace`, collected: the maximal runs of non-whitespace bytes, in order. */
  function Words(s: seq<u8>): (ws: seq<seq<u8>>)
    ensures forall k :: 0 <= k < |ws| ==> IsWord(ws[k])
    decreases |s|
  {
    if s == [] then []
    else if IsWhitespace(s[0]) then Words(s[1..])
    else
      var n := WordLength(s);
      [s[..n]] + Words(s[n..])
  }

  /** The words separated by single spaces: a text that `Words` splits back into `ws`. */
  function Join(ws: seq<seq<u8>>): seq<u8> {
    if ws == [] then []
    else if |ws| == 1 then ws[0]
    else ws[0] + [SPACE] + Join(ws[1..])
  }

  lemma {:induction false} WordLengthOfWord(w: seq<u8>, rest: seq<u8>)
    requires forall i :: 0 <= i < |w| ==> !IsWhitespace(w[i])
    requires rest == [] || IsWhitespace(rest[0])
    ensures WordLength(w + rest) == |w|
  {
    if w != [] {
      assert (w + rest)[1..] == w[1..] + rest;
      WordLengthOfWord(w[1..], rest);
    }
  }

  /** Splitting the joined words gives the words back. */
  lemma {:induction false} WordsOfJoin(ws: seq<seq<u8>>)
    requires forall k :: 0 <= k < |ws| ==> IsWord(ws[k])
    ensures Words(Join(ws)) == ws
  {
    if ws != [] {
      var w := ws[0];
      var rest := if |ws| == 1 then [] else [SPACE] + Join(ws[1..]);
      var s := Join(ws);
      assert s == w + rest;
      WordLengthOfWord(w, rest);
      assert s[..|w|] == w && s[|w|..] == rest;
      if |ws| > 1 {
        assert rest[1..] == Join(ws[1..]);
        WordsOfJoin(ws[1..]);
      }
    }
  }

  /** Text made of whitespace alone has no words. */
  lemma {:induction false} WordsOfBlank(s: seq<u8>)
    requires forall i :: 0 <= i < |s| ==> IsWhitespace(s[i])
    ensures Words(s) == []
  {
    if s != [] {
      WordsOfBlank(s[1..]);
    }
  }

  /** Text with a non-whitespace byte has at least one word. */
  lemma {:induction false} WordsOfNonBlank(s: seq<u8>, i: nat)
    requires i < |s| && !IsWhitespace(s[i])
    ensures Words(s) != []
  {
    if IsWhitespace(s[0]) {
      WordsOfNonBlank(s[1..], i - 1);
    }
  }

  // ---------------------------------------------------------------------------
  // Decimal numbers
  // ---------------------------------------------------------------------------

  predicate IsDigit(c: u8) {
    48 <= c <= 57
  }

  predicate AllDigits(d: seq<u8>) {
    forall i :: 0 <= i < |d| ==> IsDigit(d[i])
  }

  /** The number a string of decimal digits denotes, most significant digit first. */
  function DecimalValue(d: seq<u8>): nat
    requires AllDigits(d)
  {
    if d == [] then 0 else 10 * DecimalValue(d[..|d| - 1]) + (d[|d| - 1] - 48)
  }

  /**
   * `str::parse::<u32>`: an optional `+`, then one or more decimal digits whose
   * value fits in 32 bits.
   */
  function ParseU32(v: seq<u8>): (r: Option<u32>)
    ensures r.Some? ==> exists d :: (v == d || v == [PLUS] + d) && d != [] && AllDigits(d) && DecimalValue(d) == r.value
  {
    var d := if |v| > 0 && v[0] == PLUS then v[1..] else v;
    assert v == d || v == [PLUS] + d;
    if d == [] || !AllDigits(d) || DecimalValue(d) >= 0x1_0000_0000 then None
    else Some(DecimalValue(d))
  }

  /**
   * Every word `parse::<u32>` accepts does parse: one or more decimal digits
   * (leading zeros allowed) whose value fits in 32 bits, with or without a
   * leading `+`, give that value.
   */
  lemma ParseU32Accepts(d: seq<u8>)
    requires d != [] && AllDigits(d) && DecimalValue(d) < 0x1_0000_0000
    ensures ParseU32(d) == Some(DecimalValue(d))
    ensures ParseU32([PLUS] + d) == Some(DecimalValue(d))
  {
    assert ([PLUS] + d)[1..] == d;
  }

  /** The decimal text of `n`, without sign or leading zeros (Rust's `Display` for integers). */
  function DecimalString(n: nat): (d: seq<u8>)
    ensures d != [] && AllDigits(d)
  {
    if n < 10 then [48 + n] else DecimalString(n / 10) + [48 + n % 10]
  }

  lemma {:induction false} DecimalValueOfString(n: nat)
    ensures DecimalValue(DecimalString(n)) == n
  {
    if n >= 10 {
      var d := DecimalString(n);
      assert d[..|d| - 1] == DecimalString(n / 10);
      DecimalValueOfString(n / 10);
    }
  }

  /** Parsing the decimal text of a u32 gives it back. */
  lemma ParseDecimalString(x: u32)
    ensures ParseU32(DecimalString(x)) == Some(x)
  {
    DecimalValueOfString(x);
  }

  // ---------------------------------------------------------------------------
  // prepare_statement
  // ---------------------------------------------------------------------------

  /** A token copied into a zero-filled `[u8; size]` (`bytes[..s.len()].copy_from_slice(s)`). */
  function Pad(s: seq<u8>, size: nat): (field: seq<u8>)
    requires |s| <= size
    ensures |field| == size
    ensures field[..|s|] == s
    ensures forall i :: |s| <= i < size ==> field[i] == 0
  {
    s + Zeros(size - |s|)
  }

  /**
   * The `insert` branch: consumes id, username and email from the words that
   * follow `insert`, in that order, stopping at the first error; words after
   * the email are not looked at.
   */
  function PrepareRow(args: seq<seq<u8>>, input: seq<u8>): (r: Result<Row, PrepareError>)
    requires forall k :: 0 <= k < |args| ==> IsWord(args[k])
    ensures r.Success? ==> |args| >= 3 && ParseU32(args[0]) == Some(r.value.id)
    ensures r.Success? ==> |args[1]| <= COLUMN_USERNAME_SIZE && r.value.username[..|args[1]|] == args[1]
    ensures r.Success? ==> |args[2]| <= COLUMN_EMAIL_SIZE && r.value.email[..|args[2]|] == args[2]
    ensures r.Failure? ==> r.error.input == input
  {
    if |args| < 1 then Failure(InvalidInput(input))
    else if assert IsWord(args[0]); args[0][0] == MINUS then Failure(NegativeNumber(args[0], input))
    else if ParseU32(args[0]).None? then Failure(InvalidId(args[0], input))
    else if |args| < 2 then Failure(InvalidInput(input))
    else if |args[1]| > COLUMN_USERNAME_SIZE then Failure(UsernameTooLong(args[1], input))
    else if |args| < 3 then Failure(InvalidInput(input))
    else if |args[2]| > COLUMN_EMAIL_SIZE then Failure(EmailTooLong(args[2], input))
    else Success(Row(ParseU32(args[0]).value, Pad(args[1], COLUMN_USERNAME_SIZE), Pad(args[2], COLUMN_EMAIL_SIZE)))
  }

  /** `Statement::prepare_statement`. */
  function PrepareStatement(input: seq<u8>): (r: Result<Statement, PrepareError>)
    ensures r.Success? ==> (r.value.stype == Insert <==> r.value.row.Some?)
    ensures r.Failure? ==> r.error.input == input
  {
    var parts := Words(input);
    if parts == [] then Failure(InvalidInput(input))
    else if parts[0] == INSERT then
      match PrepareRow(parts[1..], input)
      case Failure(e) => Failure(e)
      case Success(row) => Success(Statement(Insert, Some(row)))
    else if parts[0] == SELECT then Success(Statement(Select, None))
    else Failure(UnrecognizedStatement(parts[0], input))
  }

  /** Empty or all-whitespace input is rejected as invalid input. */
  lemma PrepareBlank(input: seq<u8>)
    requires forall i :: 0 <= i < |input| ==> IsWhitespace(input[i])
    ensures PrepareStatement(input) == Failure(InvalidInput(input))
  {
    WordsOfBlank(input);
  }

  /** A first word other than `insert` or `select` is an unrecognized statement, whatever follows. */
  lemma PrepareUnrecognized(input: seq<u8>)
    requires Words(input) != [] && Words(input)[0] != INSERT && Words(input)[0] != SELECT
    ensures PrepareStatement(input) == Failure(UnrecognizedStatement(Words(input)[0], input))
  {
  }

  /** `select`, followed by any words, is a select statement without a row. */
  lemma PrepareSelect(input: seq<u8>)
    requires Words(input) != [] && Words(input)[0] == SELECT
    ensures PrepareStatement(input) == Success(Statement(Select, None))
  {
    assert SELECT != INSERT by { assert SELECT[0] != INSERT[0]; }
  }

  /**
   * An insert line whose id parses, whose username has at most 32 bytes and
   * whose email has at most 255 is accepted; its row carries the id and the
   * zero-padded username and email, and words after the email are ignored.
   */
  lemma PrepareInsert(input: seq<u8>, id: u32)
    requires |Words(input)| >= 4 && Words(input)[0] == INSERT
    requires Words(input)[1][0] != MINUS && ParseU32(Words(input)[1]) == Some(id)
    requires |Words(input)[2]| <= COLUMN_USERNAME_SIZE && |Words(input)[3]| <= COLUMN_EMAIL_SIZE
    ensures var ws := Words(input);
      PrepareStatement(input)
      == Success(Statement(Insert, Some(Row(id, Pad(ws[2], COLUMN_USERNAME_SIZE), Pad(ws[3], COLUMN_EMAIL_SIZE)))))
  {
    var ws := Words(input);
    assert ws[1..][0] == ws[1] && ws[1..][1] == ws[2] && ws[1..][2] == ws[3];
  }

  /** An id word that starts with `-` is reported as a negative number, before anything else is looked at. */
  lemma PrepareNegativeId(input: seq<u8>)
    requires |Words(input)| >= 2 && Words(input)[0] == INSERT && Words(input)[1][0] == MINUS
    ensures PrepareStatement(input) == Failure(NegativeNumber(Words(input)[1], input))
  {
    assert Words(input)[1..][0] == Words(input)[1];
  }

  /** An id word that does not parse as a u32 (and does not start with `-`) is an invalid id. */
  lemma PrepareInvalidId(input: seq<u8>)
    requires |Words(input)| >= 2 && Words(input)[0] == INSERT
    requires Words(input)[1][0] != MINUS && ParseU32(Words(input)[1]).None?
    ensures PrepareStatement(input) == Failure(InvalidId(Words(input)[1], input))
  {
    assert Words(input)[1..][0] == Words(input)[1];
  }

  /** An over-long username is rejected as soon as it is read, whether an email follows or not. */
  lemma PrepareUsernameTooLong(input: seq<u8>)
    requires |Words(input)| >= 3 && Words(input)[0] == INSERT
    requires Words(input)[1][0] != MINUS && ParseU32(Words(input)[1]).Some?
    requires |Words(input)[2]| > COLUMN_USERNAME_SIZE
    ensures PrepareStatement(input) == Failure(UsernameTooLong(Words(input)[2], input))
  {
    var ws := Words(input);
    assert ws[1..][0] == ws[1] && ws[1..][1] == ws[2];
  }

  /** An over-long email is rejected. */
  lemma PrepareEmailTooLong(input: seq<u8>)
    requires |Words(input)| >= 4 && Words(input)[0] == INSERT
    requires Words(input)[1][0] != MINUS && ParseU32(Words(input)[1]).Some?
    requires |Words(input)[2]| <= COLUMN_USERNAME_SIZE && |Words(input)[3]| > COLUMN_EMAIL_SIZE
    ensures PrepareStatement(input) == Failure(EmailTooLong(Words(input)[3], input))
  {
    var ws := Words(input);
    assert ws[1..][0] == ws[1] && ws[1..][1] == ws[2] && ws[1..][2] == ws[3];
  }

  /** An `insert` line that ends before its email, with no earlier error, is invalid input. */
  lemma PrepareMissingField(input: seq<u8>)
    requires 1 <= |Words(input)| < 4 && Words(input)[0] == INSERT
    requires |Words(input)| >= 2 ==> Words(input)[1][0] != MINUS && ParseU32(Words(input)[1]).Some?
    requires |Words(input)| >= 3 ==> |Words(input)[2]| <= COLUMN_USERNAME_SIZE
    ensures PrepareStatement(input) == Failure(InvalidInput(input))
  {
    var ws := Words(input);
    assert |ws| >= 2 ==> ws[1..][0] == ws[1];
    assert |ws| >= 3 ==> ws[1..][1] == ws[2];
  }

  /**
   * Printing an insert command and parsing it back: the line
   * `insert <id> <username> <email> ...` written with single spaces is parsed
   * into the row it describes.
   */
  lemma PrepareFormattedInsert(id: u32, username: seq<u8>, email: seq<u8>, rest: seq<seq<u8>>)
    requires IsWord(username) && |username| <= COLUMN_USERNAME_SIZE
    requires IsWord(email) && |email| <= COLUMN_EMAIL_SIZE
    requires forall k :: 0 <= k < |rest| ==> IsWord(rest[k])
    ensures PrepareStatement(Join([INSERT, DecimalString(id), username, email] + rest))
         == Success(Statement(Insert, Some(Row(id, Pad(username, COLUMN_USERNAME_SIZE), Pad(email, COLUMN_EMAIL_SIZE)))))
  {
    var d := DecimalString(id);
    var ws := [INSERT, d, username, email] + rest;
    var input := Join(ws);
    assert IsWord(d) by {
      forall i | 0 <= i < |d| ensures !IsWhitespace(d[i]) {
        assert IsDigit(d[i]);
      }
    }
    WordsOfJoin(ws);
    ParseDecimalString(id);
    assert d[0] != MINUS by { assert IsDigit(d[0]); }
    PrepareInsert(input, id);
  }

  // ---------------------------------------------------------------------------
  // do_meta_command
  // ---------------------------------------------------------------------------

  /** The first whitespace-separated word, or the empty string (`next().unwrap_or_default()`). */
  function FirstWord(input: seq<u8>): (w: seq<u8>)
    ensures w == [] <==> Words(input) == []
    ensures w != [] ==> IsWord(w)
  {
    var ws := Words(input);
    if ws == [] then [] else ws[0]
  }

  /** `do_meta_command`: `.exit` (as a prefix) succeeds, anything else is reported with its first word. */
  function DoMetaCommand(input: seq<u8>): (r: Outcome<MetaCommandError>)
    ensures r.Pass? <==> |input| >= |EXIT| && input[..|EXIT|] == EXIT
    ensures r.Fail? ==> r.error.input == input
  {
    if |input| >= |EXIT| && input[..|EXIT|] == EXIT then Pass
    else Fail(UnrecognizedCommand(FirstWord(input), input))
  }

  /** Any line that begins with `.exit` exits, even `.exitnow`; a line that does not is reported with its first word. */
  lemma MetaCommandOutcome(input: seq<u8>, rest: seq<u8>)
    ensures DoMetaCommand(EXIT + rest) == Pass
    ensures Words(input) != [] && !(|input| >= |EXIT| && input[..|EXIT|] == EXIT)
      ==> DoMetaCommand(input) == Fail(UnrecognizedCommand(Words(input)[0], input))
  {
    assert (EXIT + rest)[..|EXIT|] == EXIT;
  }

  /** A blank line is not `.exit`, and its reported command is empty. */
  lemma MetaCommandBlank(input: seq<u8>)
    requires forall i :: 0 <= i < |input| ==> IsWhitespace(input[i])
    ensures DoMetaCommand(input) == Fail(UnrecognizedCommand([], input))
  {
    WordsOfBlank(input);
    if |input| >= |EXIT| {
      assert IsWhitespace(input[0]);
    }
  }
}
