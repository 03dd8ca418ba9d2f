/** Statement preparation of src/main.rs: `prepare_statement` and
    `prepare_insert`, with the pieces of the Rust standard library they rely
    on written out: `trim` and `split_whitespace` (Unicode White_Space),
    `u32::from_str` (an optional `+`, then one or more ASCII digits, no
    overflow) and the UTF-8 length of a `String`. */
module RustStatement {
  import opened Bytes
  import opened Layout
  import opened Options
  import opened RowCodec

  const COLUMN_USERNAME_SIZE: nat := 32
  const COLUMN_EMAIL_SIZE: nat := 255

  datatype Statement = Insert(row: Row) | Select

  datatype PrepareError = SyntaxError | NegativeID | StringTooLong | UnrecognizedStatement

  datatype PrepareResult = Ok(statement: Statement) | Err(error: PrepareError)

  // ---------------------------------------------------------------- whitespace

  /** The Unicode White_Space property, which `char::is_whitespace` tests. */
  predicate IsWhitespace(c: char)
  {
    || ('\U{9}' <= c <= '\U{D}') || c == '\U{20}' || c == '\U{85}' || c == '\U{A0}'
    || c == '\U{1680}' || ('\U{2000}' <= c <= '\U{200A}') || c == '\U{2028}' || c == '\U{2029}'
    || c == '\U{202F}' || c == '\U{205F}' || c == '\U{3000}'
  }

  predicate NoWhitespace(s: seq<char>)
  {
    forall i :: 0 <= i < |s| ==> !IsWhitespace(s[i])
  }

  /** The length of the run of non-whitespace characters that starts `s`. */
  function TokenLength(s: seq<char>): (n: nat)
    ensures n <= |s| && NoWhitespace(s[..n])
    ensures n < |s| ==> IsWhitespace(s[n])
  {
    if s == [] || IsWhitespace(s[0]) then 0 else 1 + TokenLength(s[1..])
  }

  /** `split_whitespace`: the maximal runs of non-whitespace characters, in order. */
  function SplitWhitespace(s: seq<char>): (ts: seq<seq<char>>)
    ensures forall i :: 0 <= i < |ts| ==> |ts[i]| > 0 && NoWhitespace(ts[i])
    decreases |s|
  {
    if s == [] then []
    else if IsWhitespace(s[0]) then SplitWhitespace(s[1..])
    else
      var n := TokenLength(s);
      [s[..n]] + SplitWhitespace(s[n..])
  }

  /** `trim`: `s` without its leading and trailing whitespace. */
  function Trim(s: seq<char>): (r: seq<char>)
    ensures |r| <= |s|
    ensures r == [] || (!IsWhitespace(r[0]) && !IsWhitespace(r[|r| - 1]))
    decreases |s|
  {
    if s == [] then []
    else if IsWhitespace(s[0]) then Trim(s[1..])
    else if IsWhitespace(s[|s| - 1]) then Trim(s[..|s| - 1])
    else s
  }

  /** One whitespace character appended changes nothing for
      `split_whitespace`. */
  lemma {:induction false} SplitIgnoresTrailing(s: seq<char>, c: char)
    requires IsWhitespace(c)
    ensures SplitWhitespace(s + [c]) == SplitWhitespace(s)
    decreases |s|
  {
    if s == [] {
      assert SplitWhitespace([c]) == SplitWhitespace([c][1..]);
    } else if IsWhitespace(s[0]) {
      assert (s + [c])[1..] == s[1..] + [c];
      SplitIgnoresTrailing(s[1..], c);
    } else {
      var n := TokenLength(s);
      TokenLengthExtends(s, [c]);
      assert (s + [c])[..n] == s[..n];
      assert (s + [c])[n..] == s[n..] + [c];
      SplitIgnoresTrailing(s[n..], c);
    }
  }

  /** Any run of whitespace appended changes nothing for `split_whitespace`. */
  lemma {:induction false} SplitIgnoresWhitespaceSuffix(s: seq<char>, w: seq<char>)
    requires forall i :: 0 <= i < |w| ==> IsWhitespace(w[i])
    ensures SplitWhitespace(s + w) == SplitWhitespace(s)
    decreases |w|
  {
    if w == [] {
      assert s + w == s;
    } else {
      var last := |w| - 1;
      assert s + w == (s + w[..last]) + [w[last]];
      SplitIgnoresTrailing(s + w[..last], w[last]);
      SplitIgnoresWhitespaceSuffix(s, w[..last]);
    }
  }

  /** Appending characters keeps a token that already ends at whitespace,
      and extends one that runs to the end of `s` by the leading run of `t`. */
  lemma {:induction false} TokenLengthExtends(s: seq<char>, t: seq<char>)
    ensures TokenLength(s) < |s| ==> TokenLength(s + t) == TokenLength(s)
    ensures TokenLength(s) == |s| ==> TokenLength(s + t) == |s| + TokenLength(t)
  {
    if s != [] && !IsWhitespace(s[0]) {
      assert (s + t)[1..] == s[1..] + t;
      TokenLengthExtends(s[1..], t);
    } else if s == [] {
      assert s + t == t;
    }
  }

  /** `split_whitespace` after `trim` gives the same tokens as without it. */
  lemma {:induction false} SplitTrim(s: seq<char>)
    ensures SplitWhitespace(Trim(s)) == SplitWhitespace(s)
    decreases |s|
  {
    if s == [] {
    } else if IsWhitespace(s[0]) {
      SplitTrim(s[1..]);
    } else if IsWhitespace(s[|s| - 1]) {
      SplitTrim(s[..|s| - 1]);
      assert s == s[..|s| - 1] + [s[|s| - 1]];
      SplitIgnoresTrailing(s[..|s| - 1], s[|s| - 1]);
    }
  }

  /** Tokens joined by single spaces. */
  function Join(ts: seq<seq<char>>): (s: seq<char>)
    ensures |ts| == 0 ==> s == []
  {
    if ts == [] then [] else if |ts| == 1 then ts[0] else ts[0] + [' '] + Join(ts[1..])
  }

  /** Splitting tokens joined by spaces gives the tokens back. */
  lemma {:induction false} SplitJoin(ts: seq<seq<char>>)
    requires forall i :: 0 <= i < |ts| ==> |ts[i]| > 0 && NoWhitespace(ts[i])
    ensures SplitWhitespace(Join(ts)) == ts
  {
    if ts == [] {
    } else {
      var t := ts[0];
      TokenAll(t);
      if |ts| == 1 {
        assert t[..|t|] == t;
        assert SplitWhitespace(t) == [t] + SplitWhitespace([]);
      } else {
        var rest := [' '] + Join(ts[1..]);
        var s := t + rest;
        assert Join(ts) == s;
        TokenLengthExtends(t, rest);
        assert TokenLength(rest) == 0;
        assert s[0] == t[0] && s[..|t|] == t && s[|t|..] == rest;
        assert SplitWhitespace(s) == [t] + SplitWhitespace(rest);
        assert SplitWhitespace(rest) == SplitWhitespace(Join(ts[1..])) by {
          assert rest[1..] == Join(ts[1..]);
        }
        assert ts == [t] + ts[1..];
        SplitJoin(ts[1..]);
      }
    }
  }

  /** A whitespace-free sequence is one token. */
  lemma {:induction false} TokenAll(t: seq<char>)
    requires NoWhitespace(t)
    ensures TokenLength(t) == |t|
  {
    if t != [] {
      TokenAll(t[1..]);
    }
  }

  // ---------------------------------------------------------------- numbers

  predicate IsDigit(c: char)
  {
    '0' <= c <= '9'
  }

  predicate AllDigits(s: seq<char>)
  {
    forall i :: 0 <= i < |s| ==> IsDigit(s[i])
  }

  /** The number written by a sequence of ASCII digits, most significant first. */
  function DigitsValue(s: seq<char>): (v: nat)
    requires AllDigits(s)
  {
    if s == [] then 0 else 10 * DigitsValue(s[..|s| - 1]) + (s[|s| - 1] as int - '0' as int)
  }

  /** `u32::from_str`: an optional `+` and at least one digit, the value
      below 2^32; anything else is an error (None). A `-` is never accepted
      for an unsigned type. */
  function ParseU32(s: seq<char>): (r: Option<u32>)
    ensures r.Some? ==> |s| > 0 && s[0] != '-'
    ensures r.Some? <==> var ds := if |s| > 0 && s[0] == '+' then s[1..] else s;
                         |ds| > 0 && AllDigits(ds) && DigitsValue(ds) < 0x1_0000_0000
  {
    var ds := if |s| > 0 && s[0] == '+' then s[1..] else s;
    if |ds| > 0 && AllDigits(ds) && DigitsValue(ds) < 0x1_0000_0000 then Some(DigitsValue(ds)) else None
  }

  /** The decimal digits of `x`, as the statement text writes an id. */
  function Decimal(x: nat): (s: seq<char>)
    ensures |s| > 0 && AllDigits(s) && NoWhitespace(s) && s[0] != '+' && s[0] != '-'
  {
    if x < 10 then ['0' + x as char]
    else
      var s := Decimal(x / 10) + ['0' + (x % 10) as char];
      assert s[0] == Decimal(x / 10)[0];
      s
  }

  /** Parsing the decimal digits of a u32 gives it back. */
  lemma {:induction false} ParseDecimal(x: u32)
    ensures ParseU32(Decimal(x)) == Some(x)
  {
    DecimalValue(x);
  }

  lemma {:induction false} DecimalValue(x: nat)
    ensures DigitsValue(Decimal(x)) == x
  {
    if x >= 10 {
      var s := Decimal(x);
      assert s[..|s| - 1] == Decimal(x / 10);
      DecimalValue(x / 10);
    }
  }

  // ---------------------------------------------------------------- UTF-8

  /** The UTF-8 encoding of one character. */
  function Utf8Char(c: char): (bs: seq<byte>)
    ensures 1 <= |bs| <= 4
    ensures bs[0] == 0 <==> c == '\U{0}'
    ensures forall i :: 1 <= i < |bs| ==> bs[i] >= 0x80
    ensures (c as int < 0x80) <==> |bs| == 1
  {
    var n := c as int;
    if n < 0x80 then [n]
    else if n < 0x800 then [0xC0 + n / 0x40, 0x80 + n % 0x40]
    else if n < 0x10000 then [0xE0 + n / 0x1000, 0x80 + (n / 0x40) % 0x40, 0x80 + n % 0x40]
    else [0xF0 + n / 0x40000, 0x80 + (n / 0x1000) % 0x40, 0x80 + (n / 0x40) % 0x40, 0x80 + n % 0x40]
  }

  /** The bytes of a `String` holding `s`. */
  function Utf8(s: seq<char>): (bs: seq<byte>)
    ensures |bs| >= |s|
  {
    if s == [] then [] else Utf8Char(s[0]) + Utf8(s[1..])
  }

  predicate IsAscii(s: seq<char>)
  {
    forall i :: 0 <= i < |s| ==> s[i] as int < 0x80
  }

  /** `String::len` counts bytes: for ASCII text that is the number of characters. */
  lemma {:induction false} AsciiLength(s: seq<char>)
    requires IsAscii(s)
    ensures |Utf8(s)| == |s|
  {
    if s != [] {
      AsciiLength(s[1..]);
    }
  }

  /** The encoding has a zero byte exactly where the text has a NUL character. */
  lemma {:induction false} Utf8NoZero(s: seq<char>)
    ensures NoZero(Utf8(s)) <==> '\U{0}' !in s
  {
    if s != [] {
      Utf8NoZero(s[1..]);
      var head := Utf8Char(s[0]);
      var tail := Utf8(s[1..]);
      assert Utf8(s) == head + tail;
      if NoZero(Utf8(s)) {
        assert head[0] == Utf8(s)[0];
        assert forall i :: 0 <= i < |tail| ==> tail[i] == Utf8(s)[|head| + i];
      }
      if '\U{0}' !in s {
        assert '\U{0}' !in s[1..];
        forall i | 0 <= i < |Utf8(s)| ensures Utf8(s)[i] != 0 {
          if i >= |head| {
            assert Utf8(s)[i] == tail[i - |head|];
          }
        }
      }
    }
  }

  // ---------------------------------------------------------------- prepare

  /** `prepare_insert` (lines 56-84). */
  function PrepareInsert(input: seq<char>): (r: PrepareResult)
    ensures r.Ok? ==> r.statement.Insert? && FieldsFit(r.statement.row) && Serializable(r.statement.row)
    ensures r.Err? ==> r.error != UnrecognizedStatement
  {
    var splits := SplitWhitespace(Trim(input));
    if |splits| < 4 then Err(SyntaxError)
    else match ParseU32(splits[1])
      case None => if splits[1][0] == '-' then Err(NegativeID) else Err(SyntaxError)
      case Some(id) =>
        var username := Utf8(splits[2]);
        if |username| > COLUMN_USERNAME_SIZE then Err(StringTooLong)
        else
          var email := Utf8(splits[3]);
          if |email| > COLUMN_EMAIL_SIZE then Err(StringTooLong)
          else Ok(Insert(Row(id, username, email)))
  }

  /** `prepare_statement` (lines 86-94): `select` is tested first, on the raw input. */
  function PrepareStatement(input: seq<char>): (r: PrepareResult)
    ensures r == Ok(Select) <==> |input| >= 6 && input[..6] == "select"
    ensures r == Err(UnrecognizedStatement) <==> !(|input| >= 6 && (input[..6] == "select" || input[..6] == "insert"))
    ensures |input| >= 6 && input[..6] == "insert" ==> r == PrepareInsert(input)
  {
    if |input| >= 6 && input[..6] == "select" then Ok(Select)
    else if |input| >= 6 && input[..6] == "insert" then PrepareInsert(input)
    else Err(UnrecognizedStatement)
  }

  /** The outcome of `prepare_insert` in terms of the whitespace-separated
      tokens of the input: too few tokens, an id that does not parse (a
      leading `-` reported as a negative id), a field longer than its column,
      or the row (id, username, email) with further tokens ignored. */
  lemma PrepareInsertOutcomes(input: seq<char>)
    ensures var ts := SplitWhitespace(input);
      && (|ts| < 4 ==> PrepareInsert(input) == Err(SyntaxError))
      && (|ts| >= 4 && ParseU32(ts[1]).None? ==>
            PrepareInsert(input) == Err(if ts[1][0] == '-' then NegativeID else SyntaxError))
      && (|ts| >= 4 && ParseU32(ts[1]).Some? ==>
            (PrepareInsert(input) == Err(StringTooLong) <==>
               |Utf8(ts[2])| > COLUMN_USERNAME_SIZE || |Utf8(ts[3])| > COLUMN_EMAIL_SIZE))
      && (|ts| >= 4 && ParseU32(ts[1]).Some? && |Utf8(ts[2])| <= COLUMN_USERNAME_SIZE && |Utf8(ts[3])| <= COLUMN_EMAIL_SIZE ==>
            PrepareInsert(input) == Ok(Insert(Row(ParseU32(ts[1]).value, Utf8(ts[2]), Utf8(ts[3])))))
  {
    SplitTrim(input);
  }

  /** Typing `insert <id> <username> <email>` followed by any further tokens
      prepares the row with that id and the bytes of those two tokens, as
      long as the fields fit their columns. */
  lemma InsertRoundTrip(id: u32, username: seq<char>, email: seq<char>, extra: seq<seq<char>>)
    requires |username| > 0 && NoWhitespace(username) && |Utf8(username)| <= COLUMN_USERNAME_SIZE
    requires |email| > 0 && NoWhitespace(email) && |Utf8(email)| <= COLUMN_EMAIL_SIZE
    requires forall i :: 0 <= i < |extra| ==> |extra[i]| > 0 && NoWhitespace(extra[i])
    ensures PrepareStatement(Join(["insert", Decimal(id), username, email] + extra))
            == Ok(Insert(Row(id, Utf8(username), Utf8(email))))
  {
    var ts := ["insert", Decimal(id), username, email] + extra;
    var input := Join(ts);
    assert ts[1] == Decimal(id) && ts[2] == username && ts[3] == email;
    forall i | 0 <= i < |ts| ensures |ts[i]| > 0 && NoWhitespace(ts[i]) {
      if i >= 4 {
        assert ts[i] == extra[i - 4];
      }
    }
    SplitJoin(ts);
    ParseDecimal(id);
    assert input[..6] == "insert" by {
      assert input == "insert" + [' '] + Join(ts[1..]);
    }
    PrepareInsertOutcomes(input);
  }

  /** The line `insert <id> <username> <email>` goes to `prepare_insert`,
      which sees exactly those four tokens. */
  lemma InsertLine(id: u32, username: seq<char>, email: seq<char>)
    requires |username| > 0 && NoWhitespace(username) && |email| > 0 && NoWhitespace(email)
    ensures SplitWhitespace(Join(["insert", Decimal(id), username, email])) == ["insert", Decimal(id), username, email]
    ensures PrepareStatement(Join(["insert", Decimal(id), username, email]))
            == PrepareInsert(Join(["insert", Decimal(id), username, email]))
  {
    var ts := ["insert", Decimal(id), username, email];
    var input := Join(ts);
    SplitJoin(ts);
    assert input[..6] == "insert" by {
      assert input == "insert" + [' '] + Join(ts[1..]);
    }
  }

  /** The column limits (test.py:49-78): ASCII fields of at most 32 and
      255 characters are accepted whole, and a longer one is rejected as
      too long. */
  lemma LengthLimits(id: u32, username: seq<char>, email: seq<char>)
    requires |username| > 0 && NoWhitespace(username) && IsAscii(username)
    requires |email| > 0 && NoWhitespace(email) && IsAscii(email)
    ensures PrepareStatement(Join(["insert", Decimal(id), username, email]))
            == if |username| <= COLUMN_USERNAME_SIZE && |email| <= COLUMN_EMAIL_SIZE
               then Ok(Insert(Row(id, Utf8(username), Utf8(email))))
               else Err(StringTooLong)
  {
    var input := Join(["insert", Decimal(id), username, email]);
    InsertLine(id, username, email);
    ParseDecimal(id);
    AsciiLength(username);
    AsciiLength(email);
    PrepareInsertOutcomes(input);
  }

  /** A prepared row without NUL characters in its input survives the row
      codec: `deserialize(serialize(row)) == row`. */
  lemma PreparedRowRoundTrips(input: seq<char>)
    requires PrepareInsert(input).Ok? && '\U{0}' !in input
    ensures DecodeRow(SerializedRow(PrepareInsert(input).statement.row)) == PrepareInsert(input).statement.row
  {
    var ts := SplitWhitespace(input);
    PrepareInsertOutcomes(input);
    TokensFromInput(input, 2);
    TokensFromInput(input, 3);
    Utf8NoZero(ts[2]);
    Utf8NoZero(ts[3]);
    RoundTrip(PrepareInsert(input).statement.row);
  }

  /** Every character of a token is a character of the input. */
  lemma {:induction false} TokensFromInput(s: seq<char>, i: nat)
    requires i < |SplitWhitespace(s)| && '\U{0}' !in s
    ensures '\U{0}' !in SplitWhitespace(s)[i]
    decreases |s|
  {
    if IsWhitespace(s[0]) {
      assert '\U{0}' !in s[1..];
      TokensFromInput(s[1..], i);
    } else {
      var n := TokenLength(s);
      if i > 0 {
        assert '\U{0}' !in s[n..];
        TokensFromInput(s[n..], i - 1);
      } else {
        assert SplitWhitespace(s)[0] == s[..n];
      }
    }
  }

  /** The id token `-1` of an insert is reported as a negative id. */
  lemma NegativeIdRejected(username: seq<char>, email: seq<char>)
    requires |username| > 0 && NoWhitespace(username) && |email| > 0 && NoWhitespace(email)
    ensures PrepareStatement(Join(["insert", "-1", username, email])) == Err(NegativeID)
  {
    var ts := ["insert", "-1", username, email];
    var input := Join(ts);
    SplitJoin(ts);
    PrepareInsertOutcomes(input);
    assert input[..6] == "insert" by {
      assert input == "insert" + [' '] + Join(ts[1..]);
    }
  }
}
