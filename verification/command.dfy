/** The command line (`execute`): a blank line is ignored; otherwise the
    line is cut into tokens at spaces (`StringUtils.split(line, " ")`, runs
    of spaces count once and empty tokens are dropped), the first token,
    lower-cased, names the command, the number of tokens is checked, and
    each argument loses one pair of surrounding double quotes
    (`processQuotation`). */
module Command {
  import opened Wrappers
  import opened Keys
  import opened DataModel
  import opened ChinaDB

  // ---- StringUtils ----

  /** `Character.isWhitespace`: the space, line and paragraph separators
      other than the three no-break spaces, and the controls U+0009 to
      U+000D and U+001C to U+001F. */
  predicate IsWhitespace(c: char) {
    || ('\U{9}' <= c <= '\U{D}') || ('\U{1C}' <= c <= '\U{1F}')
    || c == ' ' || c == '\U{1680}'
    || ('\U{2000}' <= c <= '\U{200A}' && c != '\U{2007}')
    || c == '\U{2028}' || c == '\U{2029}' || c == '\U{205F}' || c == '\U{3000}'
  }

  /** `StringUtils.isBlank` on a non-null string: empty or all whitespace. */
  predicate IsBlank(s: string) {
    forall i :: 0 <= i < |s| ==> IsWhitespace(s[i])
  }

  /** `toLowerCase` on ASCII letters; every other character is kept. */
  function LowerChar(c: char): char {
    if 'A' <= c <= 'Z' then (c as int + 32) as char else c
  }

  function Lower(s: string): (r: string)
    ensures |r| == |s|
    ensures forall i :: 0 <= i < |s| ==> r[i] == LowerChar(s[i])
  {
    if |s| == 0 then [] else [LowerChar(s[0])] + Lower(s[1..])
  }

  /** A token: at least one character and no space. */
  predicate IsToken(w: string) {
    |w| > 0 && ' ' !in w
  }

  /** The tokens of `s`, `cur` being the token read so far: each space ends
      the current token, if any. */
  function Scan(s: string, cur: string): seq<string>
    decreases |s|
  {
    if |s| == 0 then (if |cur| > 0 then [cur] else [])
    else if s[0] == ' ' then (if |cur| > 0 then [cur] else []) + Scan(s[1..], [])
    else Scan(s[1..], cur + [s[0]])
  }

  /** `StringUtils.split(s, " ")`. */
  function Tokens(s: string): seq<string> {
    Scan(s, [])
  }

  /** The tokens joined by single spaces. */
  function Join(ts: seq<string>): string
    decreases |ts|
  {
    if |ts| == 0 then [] else if |ts| == 1 then ts[0] else ts[0] + " " + Join(ts[1..])
  }

  /** Every token `Scan` yields is a token, and the characters outside spaces
      are kept in order. */
  lemma {:induction false} ScanTokens(s: string, cur: string)
    requires ' ' !in cur
    ensures forall i :: 0 <= i < |Scan(s, cur)| ==> IsToken(Scan(s, cur)[i])
    decreases |s|
  {
    if |s| > 0 {
      if s[0] == ' ' {
        ScanTokens(s[1..], []);
        var head: seq<string> := if |cur| > 0 then [cur] else [];
        assert forall i :: 0 <= i < |head| ==> IsToken(head[i]);
      } else {
        assert forall c :: c in cur + [s[0]] ==> c in cur || c == s[0];
        ScanTokens(s[1..], cur + [s[0]]);
      }
    }
  }

  /** The tokens of any line are non-empty and hold no space. */
  lemma {:induction false} TokensAreTokens(s: string)
    ensures forall i :: 0 <= i < |Tokens(s)| ==> IsToken(Tokens(s)[i])
  {
    ScanTokens(s, []);
  }

  /** Reading a run of non-space characters extends the current token. */
  lemma {:induction false} ScanWord(w: string, rest: string, cur: string)
    requires ' ' !in w
    ensures Scan(w + rest, cur) == Scan(rest, cur + w)
    decreases |w|
  {
    if |w| == 0 {
      assert w + rest == rest && cur + w == cur;
    } else {
      assert (w + rest)[0] == w[0] && (w + rest)[1..] == w[1..] + rest;
      assert w[0] in w;
      assert forall c :: c in w[1..] ==> c in w;
      ScanWord(w[1..], rest, cur + [w[0]]);
      assert cur + [w[0]] + w[1..] == cur + w;
    }
  }

  /** Splitting tokens joined by single spaces gives the tokens back. */
  lemma {:induction false} SplitJoin(ts: seq<string>)
    requires forall i :: 0 <= i < |ts| ==> IsToken(ts[i])
    ensures Tokens(Join(ts)) == ts
    decreases |ts|
  {
    if |ts| == 1 {
      ScanWord(ts[0], [], []);
      assert ts[0] + [] == ts[0] && [] + ts[0] == ts[0];
    } else if |ts| > 1 {
      var rest := " " + Join(ts[1..]);
      assert Join(ts) == ts[0] + rest;
      ScanWord(ts[0], rest, []);
      assert [] + ts[0] == ts[0];
      assert rest[0] == ' ' && rest[1..] == Join(ts[1..]);
      SplitJoin(ts[1..]);
      assert [ts[0]] + ts[1..] == ts;
    }
  }

  // ---- processQuotation ----

  /** `processQuotation`: a blank word or a word of one character is kept; a
      word that starts and ends with a double quote loses both; any other
      word is kept. */
  function ProcessQuotation(w: string): (r: string)
    ensures (|w| >= 2 && w[0] == '"' && w[|w| - 1] == '"') ==> r == w[1..|w| - 1]
    ensures !(|w| >= 2 && w[0] == '"' && w[|w| - 1] == '"') ==> r == w
  {
    if IsBlank(w) || |w| == 1 then w
    else if |w| > 0 && w[0] == '"' && w[|w| - 1] == '"' then w[1..|w| - 1]
    else w
  }

  /** The quoted form of a word. */
  function Quote(w: string): string {
    "\"" + w + "\""
  }

  /** Quoting a word and processing the quotes gives the word back, the
      empty word included. */
  lemma {:induction false} QuoteRoundTrip(w: string)
    ensures ProcessQuotation(Quote(w)) == w
  {
    var q := Quote(w);
    assert q[0] == '"' && q[|q| - 1] == '"' && q[1..|q| - 1] == w;
  }

  /** Only one pair of quotes goes: processing twice can strip a second one. */
  lemma {:induction false} ProcessQuotationNotIdempotent()
    ensures ProcessQuotation("\"\"a\"\"") == "\"a\""
    ensures ProcessQuotation(ProcessQuotation("\"\"a\"\"")) == "a"
  {
    assert ProcessQuotation("\"\"a\"\"") == "\"a\"";
  }

  // ---- execute ----

  /** What `execute` does with a line. */
  datatype Outcome =
    | Ignore                       // a blank line
    | SyntaxError                  // "(error) ERR Syntax error"
    | EmptyLine                    // `del` with the wrong number of tokens
    | Unsupported                  // "(error) unsupported command"
    | DoSet(key: Key, value: string)
    | DoGet(key: Key)
    | DoDel(key: Key)

  /** The command a list of tokens names, checked for its number of tokens. */
  function Classify(ts: seq<string>): (o: Outcome)
    requires |ts| >= 1
    ensures o.DoSet? <==> Lower(ts[0]) == "set" && |ts| == 3
    ensures o.DoGet? <==> Lower(ts[0]) == "get" && |ts| == 2
    ensures o.DoDel? <==> Lower(ts[0]) == "del" && |ts| == 2
    ensures o.SyntaxError? <==> (Lower(ts[0]) == "set" && |ts| != 3) || (Lower(ts[0]) == "get" && |ts| != 2)
    ensures o.EmptyLine? <==> Lower(ts[0]) == "del" && |ts| != 2
    ensures o.Unsupported? <==> Lower(ts[0]) != "set" && Lower(ts[0]) != "get" && Lower(ts[0]) != "del"
    ensures o.DoSet? ==> o.key == ProcessQuotation(ts[1]) && o.value == ProcessQuotation(ts[2])
    ensures o.DoGet? || o.DoDel? ==> o.key == ProcessQuotation(ts[1])
  {
    var command := Lower(ts[0]);
    if command == "set" then
      (if |ts| != 3 then SyntaxError else DoSet(ProcessQuotation(ts[1]), ProcessQuotation(ts[2])))
    else if command == "get" then
      (if |ts| != 2 then SyntaxError else DoGet(ProcessQuotation(ts[1])))
    else if command == "del" then
      (if |ts| != 2 then EmptyLine else DoDel(ProcessQuotation(ts[1])))
    else Unsupported
  }

  /** A line that is not blank holds a character other than a space, so it
      has a first token. */
  lemma {:induction false} NotBlankHasToken(s: string, cur: string)
    requires !IsBlank(s) || |cur| > 0
    ensures |Scan(s, cur)| >= 1
    decreases |s|
  {
    if |s| > 0 {
      if s[0] == ' ' {
        if |cur| == 0 {
          forall i | 0 <= i < |s[1..]|
            ensures IsWhitespace(s[1..][i]) || !IsBlank(s[1..])
          {
          }
          assert !IsBlank(s[1..]) by {
            if IsBlank(s[1..]) {
              forall i | 0 <= i < |s|
                ensures IsWhitespace(s[i])
              {
                if i > 0 {
                  assert s[i] == s[1..][i - 1];
                }
              }
            }
          }
          NotBlankHasToken(s[1..], []);
        }
      } else {
        NotBlankHasToken(s[1..], cur + [s[0]]);
      }
    }
  }

  /** `execute` up to the call it makes. */
  function Parse(line: string): (o: Outcome)
    ensures o.Ignore? <==> IsBlank(line)
    ensures !o.Ignore? ==> |Tokens(line)| >= 1 && o == Classify(Tokens(line))
  {
    if IsBlank(line) then Ignore
    else
      NotBlankHasToken(line, []);
      Classify(Tokens(line))
  }

  /** What `execute` prints: nothing, a line, or the exception `get` throws
      when a segment cannot be read. */
  datatype Reply = Silent | Printed(text: string) | Failed(fault: Fault)

  /** `execute(line)` on the store: the new store and what was printed. */
  function Execute(db: Db, line: string): (r: (Db, Reply))
    ensures r.0 != db ==> Parse(line).DoSet? || Parse(line).DoDel?
    ensures r.1.Failed? ==> Parse(line).DoGet? && Get(db, Parse(line).key) == Err(r.1.fault)
    ensures Parse(line).DoSet? ==> Get(r.0, Parse(line).key) == Ok(Some(Parse(line).value))
    ensures Parse(line).DoDel? ==> Get(r.0, Parse(line).key) == Ok(None)
  {
    match Parse(line)
    case Ignore => (db, Silent)
    case SyntaxError => (db, Printed("(error) ERR Syntax error"))
    case EmptyLine => (db, Printed(""))
    case Unsupported => (db, Printed("(error) unsupported command"))
    case DoSet(k, v) => (Set(db, k, v), Silent)
    case DoDel(k) => (Del(db, k), Silent)
    case DoGet(k) =>
      match Get(db, k)
      case Ok(Some(v)) => (db, Printed(v))
      case Ok(None) => (db, Silent)
      case Err(f) => (db, Failed(f))
  }

  // ---- properties of execute ----

  /** A blank line changes nothing and prints nothing. */
  lemma {:induction false} BlankIgnored(db: Db, line: string)
    requires IsBlank(line)
    ensures Execute(db, line) == (db, Silent)
  {
  }

  /** A line of tokens whose first one holds a character other than
      whitespace is not blank. */
  lemma {:induction false} JoinNotBlank(ts: seq<string>, j: nat)
    requires |ts| >= 1 && j < |ts[0]| && !IsWhitespace(ts[0][j])
    ensures !IsBlank(Join(ts))
  {
    var s := Join(ts);
    if |ts| > 1 {
      assert s == ts[0] + (" " + Join(ts[1..]));
    }
    assert s[j] == ts[0][j];
  }

  /** The command a line of tokens names, for any spelling of the command
      word: the line is cut back into the same tokens. */
  lemma {:induction false} ParseTokens(ts: seq<string>, j: nat)
    requires |ts| >= 1 && j < |ts[0]| && !IsWhitespace(ts[0][j])
    requires forall i :: 0 <= i < |ts| ==> IsToken(ts[i])
    ensures Parse(Join(ts)) == Classify(ts)
  {
    JoinNotBlank(ts, j);
    SplitJoin(ts);
  }

  /** Each string in double quotes. */
  function Quoted(args: seq<string>): (qs: seq<string>)
    ensures |qs| == |args|
    ensures forall i :: 0 <= i < |args| ==> qs[i] == Quote(args[i])
  {
    if |args| == 0 then [] else [Quote(args[0])] + Quoted(args[1..])
  }

  /** A command typed as its command word followed by each argument in
      double quotes. */
  function Render(word: string, args: seq<string>): string {
    Join([word] + Quoted(args))
  }

  /** A spelling of a command word: a token that starts with a character
      other than whitespace. */
  predicate IsWord(word: string) {
    IsToken(word) && !IsWhitespace(word[0])
  }

  /** A rendered line is cut back into its command word and quoted
      arguments, which lose their quotes again. */
  lemma {:induction false} ParseRendered(word: string, args: seq<string>)
    requires IsWord(word)
    requires forall i :: 0 <= i < |args| ==> ' ' !in args[i]
    ensures |[word] + Quoted(args)| == |args| + 1
    ensures Parse(Render(word, args)) == Classify([word] + Quoted(args))
    ensures forall i :: 0 <= i < |args| ==> ProcessQuotation(Quoted(args)[i]) == args[i]
  {
    var ts := [word] + Quoted(args);
    forall i | 0 <= i < |ts|
      ensures IsToken(ts[i])
    {
      if i > 0 {
        var q := Quote(args[i - 1]);
        assert ts[i] == q;
        assert forall c :: c in q ==> c == '"' || c in args[i - 1];
      }
    }
    ParseTokens(ts, 0);
    forall i | 0 <= i < |args|
      ensures ProcessQuotation(Quoted(args)[i]) == args[i]
    {
      QuoteRoundTrip(args[i]);
    }
  }

  /** The command words, in any mix of upper and lower case. */
  predicate Spells(word: string, command: string) {
    IsWord(word) && Lower(word) == command
  }

  /** `set` with a key and a value stores them; with any other number of
      arguments it is a syntax error. */
  lemma {:induction false} ParseSet(word: string, args: seq<string>)
    requires Spells(word, "set")
    requires forall i :: 0 <= i < |args| ==> ' ' !in args[i]
    ensures Parse(Render(word, args)) == if |args| == 2 then DoSet(args[0], args[1]) else SyntaxError
  {
    ParseRendered(word, args);
  }

  /** `get` with a key reads it; with any other number of arguments it is a
      syntax error. */
  lemma {:induction false} ParseGet(word: string, args: seq<string>)
    requires Spells(word, "get")
    requires forall i :: 0 <= i < |args| ==> ' ' !in args[i]
    ensures Parse(Render(word, args)) == if |args| == 1 then DoGet(args[0]) else SyntaxError
  {
    ParseRendered(word, args);
  }

  /** `del` with a key deletes it; with any other number of arguments it
      prints an empty line. */
  lemma {:induction false} ParseDel(word: string, args: seq<string>)
    requires Spells(word, "del")
    requires forall i :: 0 <= i < |args| ==> ' ' !in args[i]
    ensures Parse(Render(word, args)) == if |args| == 1 then DoDel(args[0]) else EmptyLine
  {
    ParseRendered(word, args);
  }

  /** Any other command word is unsupported, whatever follows it. */
  lemma {:induction false} ParseOther(word: string, args: seq<string>)
    requires IsWord(word) && Lower(word) !in {"set", "get", "del"}
    requires forall i :: 0 <= i < |args| ==> ' ' !in args[i]
    ensures Parse(Render(word, args)) == Unsupported
  {
    ParseRendered(word, args);
  }

  /** Quotes do not protect a space: a quoted value holding one is cut in
      two and `set` sees four tokens. */
  lemma {:induction false} QuotedSpaceSplits()
    ensures Parse("set \"a b\" c") == SyntaxError
  {
    var ts := ["set", "\"a", "b\"", "c"];
    assert Join(ts) == "set \"a b\" c";
    ParseTokens(ts, 0);
  }

  /** A `get` line prints the value `get` answers, nothing for null. */
  lemma {:induction false} ExecuteGet(db: Db, line: string, k: Key)
    requires Parse(line) == DoGet(k)
    ensures Execute(db, line).0 == db
    ensures Get(db, k) == Ok(None) ==> Execute(db, line).1 == Silent
    ensures forall v :: Get(db, k) == Ok(Some(v)) ==> Execute(db, line).1 == Printed(v)
  {
  }

  /** A `set` line sets and a `del` line deletes, printing nothing. */
  lemma {:induction false} ExecuteWrite(db: Db, line: string)
    ensures forall k, v :: Parse(line) == DoSet(k, v) ==> Execute(db, line) == (Set(db, k, v), Silent)
    ensures forall k :: Parse(line) == DoDel(k) ==> Execute(db, line) == (Del(db, k), Silent)
  {
  }

  /** The lines `set "k" "v"`, `get "k"` and `del "k"`, each argument in
      double quotes, for keys and values without spaces. An unquoted argument
      that itself starts and ends with a quote would lose those quotes. */
  lemma {:induction false} CommandLines(k: Key, v: string)
    requires ' ' !in k && ' ' !in v
    ensures Parse(Render("set", [k, v])) == DoSet(k, v)
    ensures Parse(Render("get", [k])) == DoGet(k)
    ensures Parse(Render("del", [k])) == DoDel(k)
  {
    assert Spells("set", "set") && Spells("get", "get") && Spells("del", "del");
    ParseSet("set", [k, v]);
    ParseGet("get", [k]);
    ParseDel("del", [k]);
  }

  /** Typing `set "k" "v"` and then `get "k"` prints `v`. */
  lemma {:induction false} ExecuteSetThenGet(db: Db, k: Key, v: string)
    requires ' ' !in k && ' ' !in v
    ensures Execute(db, Render("set", [k, v])) == (Set(db, k, v), Silent)
    ensures Execute(Set(db, k, v), Render("get", [k])).1 == Printed(v)
  {
    CommandLines(k, v);
    ExecuteWrite(db, Render("set", [k, v]));
    SetThenGet(db, k, v);
    ExecuteGet(Set(db, k, v), Render("get", [k]), k);
  }

  /** Typing `del "k"` and then `get "k"` prints nothing. */
  lemma {:induction false} ExecuteDelThenGet(db: Db, k: Key)
    requires ' ' !in k
    ensures Execute(db, Render("del", [k])) == (Del(db, k), Silent)
    ensures Execute(Del(db, k), Render("get", [k])).1 == Silent
  {
    CommandLines(k, "");
    ExecuteWrite(db, Render("del", [k]));
    DelThenGet(db, k);
    ExecuteGet(Del(db, k), Render("get", [k]), k);
  }
}
