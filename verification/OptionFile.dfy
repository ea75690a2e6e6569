/** The option file parser (inadyn/inadyn_cmd.c:635-826 and 873-891). */
module OptionFile {

  // ----- One character -----

  datatype ParserState = NewLine | Comment | Data | Space | Escape

  datatype Rc = Ok | OutOfBuffer | ReadError | OutOfMemory | OpenError

  /** DYNDNS_SERVER_NAME_LENGTH */
  const BUFFER_SIZE: nat := 256

  predicate IsSpace(c: char) {
    c == ' ' || c == '\t' || c == '\n' || c == '\U{b}' || c == '\U{c}' || c == '\r'
  }

  predicate EndsLine(c: char) {
    c == '\n' || c == '\r'
  }

  /** The parser between two characters; ended says that the option is complete. */
  datatype Reading = Reading(state: ParserState, buffer: string, ended: bool, rc: Rc)

  /** push_in_buffer, and the state afterwards if the characters fit. */
  function Push(r: Reading, chars: string, next: ParserState): (p: Reading)
    ensures p.ended == r.ended
    ensures |r.buffer| <= BUFFER_SIZE ==> |p.buffer| <= BUFFER_SIZE
  {
    if |r.buffer| + |chars| > BUFFER_SIZE then r.(rc := OutOfBuffer)
    else r.(buffer := r.buffer + chars, state := next)
  }

  /** The switch of parser_read_option. */
  function Feed(r: Reading, c: char): (p: Reading)
    requires !r.ended && r.rc == Ok
    ensures |r.buffer| <= BUFFER_SIZE ==> |p.buffer| <= BUFFER_SIZE
  {
    match r.state
    case NewLine =>
      if c == '\\' then r.(state := Escape)
      else if c == '#' then r.(state := Comment)
      else if !IsSpace(c) then
        if c == '-' then Push(r, [c], Data)
        else
          var dashed := Push(r, "--", NewLine);
          if dashed.rc != Ok then dashed else Push(dashed, [c], Data)
      else r
    case Space =>
      if c == '\\' then r.(state := Escape)
      else if c == '#' then r.(state := Comment)
      else if EndsLine(c) then r.(state := NewLine)
      else if !IsSpace(c) then Push(r, [c], Data)
      else r
    case Comment =>
      if EndsLine(c) then r.(state := NewLine) else r
    case Data =>
      if c == '\\' then r.(state := Escape)
      else if c == '#' then r.(state := Comment)
      else if EndsLine(c) then r.(state := NewLine, ended := true)
      else if IsSpace(c) then r.(state := Space, ended := true)
      else Push(r, [c], Data)
    case Escape => Push(r, [c], Data)
  }

  // ----- One option -----

  /** A file: its characters, and whether reading past them is an error instead of the end. */
  datatype File = File(chars: string, faulty: bool)

  /** What a call of parser_read_option leaves: the option in the buffer, the position, the state
      kept for the next call, and whether the end of the file was met. */
  datatype Option = Option(rc: Rc, buffer: string, pos: nat, state: ParserState, atEnd: bool)

  /** The terminating zero needs room as well. */
  function Terminate(o: Option): Option {
    if o.rc == Ok && |o.buffer| + 1 > BUFFER_SIZE then o.(rc := OutOfBuffer) else o
  }

  function ReadOption(f: File, pos: nat, r: Reading): (o: Option)
    requires pos <= |f.chars| && !r.ended && r.rc == Ok
    ensures pos <= o.pos <= |f.chars|
    ensures o.rc == Ok && !o.atEnd ==> pos < o.pos
    decreases |f.chars| - pos
  {
    if pos == |f.chars| then
      if f.faulty then Option(ReadError, r.buffer, pos, r.state, false)
      else Terminate(Option(Ok, r.buffer, pos, r.state, true))
    else
      var p := Feed(r, f.chars[pos]);
      if p.rc != Ok then Option(p.rc, p.buffer, pos + 1, p.state, false)
      else if p.ended then Terminate(Option(Ok, p.buffer, pos + 1, p.state, false))
      else ReadOption(f, pos + 1, p)
  }

  /** A C string ends at its first zero character. */
  function CString(buffer: string): (s: string)
    ensures '\0' !in buffer ==> s == buffer
  {
    if buffer == "" || buffer[0] == '\0' then "" else [buffer[0]] + CString(buffer[1..])
  }

  // ----- The whole file -----

  datatype Words = Words(words: seq<string>, rc: Rc)

  function Fresh(state: ParserState): Reading {
    Reading(state, "", false, Ok)
  }

  /** The read loop of get_options_from_file_handler: one call per word, with the parser state
      kept between calls, until the end of the file, an error or an empty word. */
  function ReadAll(f: File, pos: nat, state: ParserState): Words
    requires pos <= |f.chars|
    decreases |f.chars| - pos
  {
    var o := ReadOption(f, pos, Fresh(state));
    if o.rc != Ok then Words([], o.rc)
    else
      var w := CString(o.buffer);
      if w == "" then Words([], Ok)
      else if o.atEnd then Words([w], Ok)
      else
        var rest := ReadAll(f, o.pos, o.state);
        Words([w] + rest.words, rest.rc)
  }

  /** Tokenising the file in one go, character by character. */
  function Tokenise(f: File, pos: nat, r: Reading): Words
    requires pos <= |f.chars| && !r.ended && r.rc == Ok
    decreases |f.chars| - pos
  {
    if pos == |f.chars| then
      if f.faulty then Words([], ReadError)
      else if |r.buffer| + 1 > BUFFER_SIZE then Words([], OutOfBuffer)
      else Words(if CString(r.buffer) == "" then [] else [CString(r.buffer)], Ok)
    else
      var p := Feed(r, f.chars[pos]);
      if p.rc != Ok then Words([], p.rc)
      else if !p.ended then Tokenise(f, pos + 1, p)
      else if |p.buffer| + 1 > BUFFER_SIZE then Words([], OutOfBuffer)
      else if CString(p.buffer) == "" then Words([], Ok)
      else
        var rest := Tokenise(f, pos + 1, Fresh(p.state));
        Words([CString(p.buffer)] + rest.words, rest.rc)
  }

  /** What tokenising says, in terms of the next call of parser_read_option. */
  function FirstThenRest(f: File, o: Option): Words
    requires o.pos <= |f.chars|
  {
    if o.rc != Ok then Words([], o.rc)
    else
      var w := CString(o.buffer);
      if w == "" then Words([], Ok)
      else if o.atEnd then Words([w], Ok)
      else
        var rest := Tokenise(f, o.pos, Fresh(o.state));
        Words([w] + rest.words, rest.rc)
  }

  lemma {:induction false} TokeniseByOption(f: File, pos: nat, r: Reading)
    requires pos <= |f.chars| && !r.ended && r.rc == Ok
    ensures Tokenise(f, pos, r) == FirstThenRest(f, ReadOption(f, pos, r))
    decreases |f.chars| - pos
  {
    hide Feed, CString;
    if pos < |f.chars| {
      var p := Feed(r, f.chars[pos]);
      if p.rc == Ok && !p.ended {
        TokeniseByOption(f, pos + 1, p);
      }
    }
  }

  /** Reading word by word with the state kept between calls is tokenising the whole file. */
  lemma {:induction false} ReadAllTokenises(f: File, pos: nat, state: ParserState)
    requires pos <= |f.chars|
    ensures ReadAll(f, pos, state) == Tokenise(f, pos, Fresh(state))
    decreases |f.chars| - pos
  {
    hide Feed, CString, ReadOption;
    TokeniseByOption(f, pos, Fresh(state));
    var o := ReadOption(f, pos, Fresh(state));
    if o.rc == Ok && CString(o.buffer) != "" && !o.atEnd {
      ReadAllTokenises(f, o.pos, o.state);
    }
  }

  // ----- Writing words and reading them back -----

  /** A character of a word as it is written: with a backslash in front, or plainly. */
  datatype Piece = Piece(c: char, escaped: bool)

  type Word = seq<Piece>

  const WHITE: string := " \t\n\U{b}\U{c}\r"
  const LINE_ENDS: string := "\n\r"

  /** The characters that need no backslash. */
  predicate Plain(c: char) {
    c != '\\' && c != '#' && c !in WHITE
  }

  predicate WritablePiece(p: Piece) {
    p.c != '\0' && (p.escaped || Plain(p.c))
  }

  predicate WritableWord(w: Word)
    ensures WritableWord(w) ==> w != []
  {
    w != [] && forall i :: 0 <= i < |w| ==> WritablePiece(w[i])
  }

  predicate Writable(words: seq<Word>) {
    forall i :: 0 <= i < |words| ==> WritableWord(words[i])
  }

  function Chars(w: Word): (s: string)
    ensures |s| == |w|
  {
    seq(|w|, i requires 0 <= i < |w| => w[i].c)
  }

  function WrittenPiece(p: Piece): string {
    if p.escaped then "\\" + [p.c] else [p.c]
  }

  function Written(w: Word): string {
    if w == [] then "" else WrittenPiece(w[0]) + Written(w[1..])
  }

  /** Words, each followed by its separator. */
  function Text(words: seq<Word>, seps: seq<string>): string
    requires |words| == |seps|
  {
    if words == [] then "" else Written(words[0]) + seps[0] + Text(words[1..], seps[1..])
  }

  predicate AllSpace(s: string) {
    forall i :: 0 <= i < |s| ==> s[i] in WHITE
  }

  lemma WhiteIs(c: char)
    ensures IsSpace(c) <==> c in WHITE
    ensures EndsLine(c) <==> c in LINE_ENDS
  {
  }

  /** Separators are white space, and not empty between two words. */
  predicate Separators(seps: seq<string>) {
    && (forall i :: 0 <= i < |seps| ==> AllSpace(seps[i]))
    && (forall i :: 0 <= i < |seps| - 1 ==> seps[i] != "")
  }

  /** A text lies in the file at a position. */
  predicate HasAt(f: File, pos: nat, s: string) {
    pos + |s| <= |f.chars| && forall i :: 0 <= i < |s| ==> f.chars[pos + i] == s[i]
  }

  lemma HasParts(f: File, pos: nat, s: string, t: string)
    requires HasAt(f, pos, s + t)
    ensures HasAt(f, pos, s) && HasAt(f, pos + |s|, t)
  {
    forall i | 0 <= i < |s| ensures f.chars[pos + i] == s[i] {
      assert (s + t)[i] == s[i];
    }
    forall i | 0 <= i < |t| ensures f.chars[pos + |s| + i] == t[i] {
      assert (s + t)[|s| + i] == t[i];
    }
  }

  predicate Open(state: ParserState) {
    state == NewLine || state == Space || state == Data
  }

  /** A character that does not end the option. */
  lemma TokeniseOn(f: File, pos: nat, r: Reading, p: Reading)
    requires pos < |f.chars| && !r.ended && r.rc == Ok
    requires p == Feed(r, f.chars[pos]) && p.rc == Ok && !p.ended
    ensures Tokenise(f, pos, r) == Tokenise(f, pos + 1, p)
  {
    hide Feed, CString;
  }

  /** What a piece adds to the buffer: the first word of a line gets dashes in front, unless it
      starts with a dash or a backslash. */
  function Added(state: ParserState, p: Piece): (s: string)
    ensures 1 <= |s| <= 3
  {
    (if state == NewLine && !p.escaped && p.c != '-' then "--" else "") + [p.c]
  }

  lemma FeedPlain(r: Reading, c: char)
    requires Open(r.state) && !r.ended && r.rc == Ok && Plain(c)
    ensures var s := Added(r.state, Piece(c, false));
            if |r.buffer| + |s| <= BUFFER_SIZE then Feed(r, c) == Reading(Data, r.buffer + s, false, Ok)
            else Feed(r, c).rc == OutOfBuffer
  {
    WhiteIs(c);
    assert r.buffer + "--" + [c] == r.buffer + ("--" + [c]);
    assert "" + [c] == [c];
  }

  lemma FeedEscaped(r: Reading, c: char)
    requires Open(r.state) && !r.ended && r.rc == Ok
    ensures Feed(r, '\\') == r.(state := Escape)
    ensures |r.buffer| < BUFFER_SIZE ==>
              Feed(r.(state := Escape), c) == Reading(Data, r.buffer + [c], false, Ok)
    ensures |r.buffer| == BUFFER_SIZE ==> Feed(r.(state := Escape), c).rc == OutOfBuffer
  {
  }

  /** One piece, escaped or plain. */
  lemma ReadPiece(f: File, pos: nat, r: Reading, p: Piece)
    requires HasAt(f, pos, WrittenPiece(p)) && WritablePiece(p)
    requires Open(r.state) && !r.ended && r.rc == Ok && |r.buffer| <= BUFFER_SIZE
    ensures var s := Added(r.state, p);
            if |r.buffer| + |s| <= BUFFER_SIZE
            then Tokenise(f, pos, r)
                 == Tokenise(f, pos + |WrittenPiece(p)|, Reading(Data, r.buffer + s, false, Ok))
            else Tokenise(f, pos, r).rc == OutOfBuffer
  {
    hide Feed, Plain;
    var text := WrittenPiece(p);
    assert f.chars[pos + 0] == text[0];
    if p.escaped {
      assert f.chars[pos + 1] == text[1];
      FeedEscaped(r, p.c);
      hide Tokenise;
      TokeniseOn(f, pos, r, r.(state := Escape));
      assert Added(r.state, p) == [p.c];
      if |r.buffer| < BUFFER_SIZE {
        TokeniseOn(f, pos + 1, r.(state := Escape), Reading(Data, r.buffer + [p.c], false, Ok));
      } else {
        TokeniseFails(f, pos + 1, r.(state := Escape));
      }
    } else {
      hide Tokenise;
      assert p == Piece(p.c, false);
      FeedPlain(r, p.c);
      var s := Added(r.state, p);
      if |r.buffer| + |s| <= BUFFER_SIZE {
        TokeniseOn(f, pos, r, Reading(Data, r.buffer + s, false, Ok));
      } else {
        TokeniseFails(f, pos, r);
      }
    }
  }

  lemma TokeniseFails(f: File, pos: nat, r: Reading)
    requires pos < |f.chars| && !r.ended && r.rc == Ok && Feed(r, f.chars[pos]).rc == OutOfBuffer
    ensures Tokenise(f, pos, r).rc == OutOfBuffer
  {
    hide Feed, CString;
  }

  /** What a word reads as, from a state: its characters, and the dashes if it opens a line. */
  function Seen(state: ParserState, w: Word): (s: string)
    requires w != []
    ensures |w| <= |s| <= |w| + 2
  {
    (if state == NewLine && !w[0].escaped && w[0].c != '-' then "--" else "") + Chars(w)
  }

  lemma SeenStep(state: ParserState, w: Word)
    requires |w| > 1
    ensures Seen(state, w) == Added(state, w[0]) + Seen(Data, w[1..])
  {
    assert Chars(w) == [w[0].c] + Chars(w[1..]);
  }

  lemma SeenOne(state: ParserState, w: Word)
    requires |w| == 1
    ensures Seen(state, w) == Added(state, w[0])
  {
    assert Chars(w) == [w[0].c];
  }

  lemma WrittenStep(w: Word)
    requires w != []
    ensures Written(w) == WrittenPiece(w[0]) + Written(w[1..])
    ensures |w| == 1 ==> Written(w) == WrittenPiece(w[0])
  {
    hide WrittenPiece;
  }

  lemma TailOfWord(w: Word)
    requires WritableWord(w)
    ensures WritablePiece(w[0]) && (|w| > 1 ==> WritableWord(w[1..]))
  {
    hide WritablePiece;
  }

  /** A word goes into the buffer as it is seen, or it does not fit. */
  lemma {:induction false} ReadWord(f: File, pos: nat, r: Reading, w: Word)
    requires WritableWord(w) && HasAt(f, pos, Written(w))
    requires Open(r.state) && !r.ended && r.rc == Ok && |r.buffer| <= BUFFER_SIZE
    ensures var s := Seen(r.state, w);
            if |r.buffer| + |s| <= BUFFER_SIZE
            then Tokenise(f, pos, r) == Tokenise(f, pos + |Written(w)|, Reading(Data, r.buffer + s, false, Ok))
            else Tokenise(f, pos, r).rc == OutOfBuffer
    decreases |w|
  {
    hide Tokenise, HasAt, Written, WrittenPiece, WritablePiece, WritableWord, Seen, Added;
    WrittenStep(w);
    TailOfWord(w);
    if |w| == 1 {
      SeenOne(r.state, w);
      ReadPiece(f, pos, r, w[0]);
    } else {
      HasParts(f, pos, WrittenPiece(w[0]), Written(w[1..]));
      SeenStep(r.state, w);
      ReadPiece(f, pos, r, w[0]);
      var a, b := Added(r.state, w[0]), Seen(Data, w[1..]);
      assert r.buffer + a + b == r.buffer + (a + b);
      if |r.buffer| + |a| <= BUFFER_SIZE {
        ReadWord(f, pos + |WrittenPiece(w[0])|, Reading(Data, r.buffer + a, false, Ok), w[1..]);
      }
    }
  }

  // White space between words.

  /** The state in which one white space character leaves the parser between words. */
  function AfterSpace(state: ParserState, c: char): (t: ParserState)
    ensures t == NewLine || t == Space
  {
    if state == NewLine || EndsLine(c) then NewLine else Space
  }

  function AfterSpaces(state: ParserState, s: string): (t: ParserState)
    ensures state == NewLine || state == Space || s != "" ==> t == NewLine || t == Space
    decreases |s|
  {
    if s == "" then state else AfterSpaces(AfterSpace(state, s[0]), s[1..])
  }

  lemma FeedSpace(r: Reading, c: char)
    requires !r.ended && r.rc == Ok && IsSpace(c) && Open(r.state)
    ensures Feed(r, c) == r.(state := AfterSpace(r.state, c), ended := r.state == Data)
  {
  }

  lemma {:induction false} SkipSpaces(f: File, pos: nat, state: ParserState, s: string)
    requires HasAt(f, pos, s) && AllSpace(s) && (state == NewLine || state == Space)
    ensures Tokenise(f, pos, Fresh(state)) == Tokenise(f, pos + |s|, Fresh(AfterSpaces(state, s)))
    decreases |s|
  {
    hide Feed, Tokenise, IsSpace, AfterSpace, HasAt;
    if s != "" {
      HasHead(f, pos, s);
      WhiteIs(s[0]);
      FeedSpace(Fresh(state), s[0]);
      TokeniseOn(f, pos, Fresh(state), Fresh(AfterSpace(state, s[0])));
      SkipSpaces(f, pos + 1, AfterSpace(state, s[0]), s[1..]);
    }
  }

  /** A word in front of the rest, or no room for its terminating zero. */
  function Before(w: string, rest: Words): Words {
    if |w| + 1 > BUFFER_SIZE then Words([], OutOfBuffer) else Words([w] + rest.words, rest.rc)
  }

  /** White space ends a word. */
  lemma EndOfWord(f: File, pos: nat, w: string, sep: string)
    requires HasAt(f, pos, sep) && AllSpace(sep) && sep != "" && w != "" && '\0' !in w
    ensures Tokenise(f, pos, Reading(Data, w, false, Ok))
         == Before(w, Tokenise(f, pos + |sep|, Fresh(AfterSpaces(Data, sep))))
  {
    hide Feed, IsSpace, AfterSpace, CString, Tokenise, HasAt;
    HasHead(f, pos, sep);
    WhiteIs(sep[0]);
    FeedSpace(Reading(Data, w, false, Ok), sep[0]);
    TokeniseEnd(f, pos, w, AfterSpace(Data, sep[0]));
    SkipSpaces(f, pos + 1, AfterSpace(Data, sep[0]), sep[1..]);
  }

  lemma HasHead(f: File, pos: nat, s: string)
    requires HasAt(f, pos, s) && s != ""
    ensures pos < |f.chars| && f.chars[pos] == s[0] && HasAt(f, pos + 1, s[1..])
  {
    assert s == [s[0]] + s[1..];
    HasParts(f, pos, [s[0]], s[1..]);
    assert f.chars[pos + 0] == s[0];
  }

  /** A character that ends the word. */
  lemma TokeniseEnd(f: File, pos: nat, w: string, next: ParserState)
    requires pos < |f.chars| && w != "" && '\0' !in w
    requires Feed(Reading(Data, w, false, Ok), f.chars[pos]) == Reading(next, w, true, Ok)
    ensures Tokenise(f, pos, Reading(Data, w, false, Ok)) == Before(w, Tokenise(f, pos + 1, Fresh(next)))
  {
    hide Feed, CString;
  }

  /** So does the end of the file. */
  lemma EndOfFile(f: File, w: string)
    requires !f.faulty && w != "" && '\0' !in w
    ensures Tokenise(f, |f.chars|, Reading(Data, w, false, Ok)) == Before(w, Words([], Ok))
  {
    hide Feed, CString;
  }

  /** What reading gives for words written with every character escaped. */
  function Expected(words: seq<string>): Words {
    if words == [] then Words([], Ok) else Before(words[0], Expected(words[1..]))
  }

  lemma {:induction false} ExpectedIs(words: seq<string>)
    ensures (forall i :: 0 <= i < |words| ==> |words[i]| <= 255) ==> Expected(words) == Words(words, Ok)
    ensures (exists i :: 0 <= i < |words| && |words[i]| > 255) ==> Expected(words).rc == OutOfBuffer
  {
    if words != [] {
      ExpectedIs(words[1..]);
      assert words == [words[0]] + words[1..];
    }
  }

  /** The state behind a separator. */
  function Behind(sep: string): ParserState {
    if exists c :: c in sep && c in LINE_ENDS then NewLine else Space
  }

  lemma {:induction false} BehindIs(state: ParserState, sep: string)
    requires state == NewLine || state == Space || (state == Data && sep != "")
    ensures AfterSpaces(state, sep) == if state == NewLine then NewLine else Behind(sep)
    decreases |sep|
  {
    if sep != "" {
      WhiteIs(sep[0]);
      BehindIs(AfterSpace(state, sep[0]), sep[1..]);
      assert sep == [sep[0]] + sep[1..];
    }
  }

  /** The words as they are seen, from a state on. */
  function SeenWords(state: ParserState, words: seq<Word>, seps: seq<string>): (s: seq<string>)
    requires |words| == |seps| && Writable(words)
    ensures |s| == |words|
    decreases |words|
  {
    if words == [] then [] else [Seen(state, words[0])] + SeenWords(Behind(seps[0]), words[1..], seps[1..])
  }

  lemma TailIsWritable(words: seq<Word>, seps: seq<string>)
    requires |words| == |seps| > 0 && Writable(words) && Separators(seps)
    ensures Writable(words[1..]) && Separators(seps[1..])
    ensures WritableWord(words[0]) && AllSpace(seps[0]) && (|words| > 1 ==> seps[0] != "")
  {
    hide AllSpace, WritableWord;
  }

  lemma SeenIsClean(state: ParserState, w: Word)
    requires WritableWord(w)
    ensures Seen(state, w) != "" && '\0' !in Seen(state, w)
  {
    hide Plain;
  }

  /** Where the first word, its separator and the rest lie. */
  lemma Layout(f: File, pos: nat, words: seq<Word>, seps: seq<string>)
    requires |words| == |seps| > 0
    requires HasAt(f, pos, Text(words, seps)) && pos + |Text(words, seps)| == |f.chars|
    ensures var p, rest := pos + |Written(words[0])|, Text(words[1..], seps[1..]);
            && HasAt(f, pos, Written(words[0])) && HasAt(f, p, seps[0])
            && HasAt(f, p + |seps[0]|, rest) && p + |seps[0]| + |rest| == |f.chars|
  {
    hide HasAt, Written, Text;
    TextStep(words, seps);
    HasThreeParts(f, pos, Written(words[0]), seps[0], Text(words[1..], seps[1..]));
  }

  lemma TextStep(words: seq<Word>, seps: seq<string>)
    requires |words| == |seps| > 0
    ensures Text(words, seps) == Written(words[0]) + seps[0] + Text(words[1..], seps[1..])
  {
    hide Written;
  }

  lemma HasThreeParts(f: File, pos: nat, a: string, b: string, c: string)
    requires HasAt(f, pos, a + b + c) && pos + |a + b + c| == |f.chars|
    ensures HasAt(f, pos, a) && HasAt(f, pos + |a|, b) && HasAt(f, pos + |a| + |b|, c)
    ensures pos + |a| + |b| + |c| == |f.chars|
  {
    hide HasAt;
    HasParts(f, pos, a + b, c);
    HasParts(f, pos, a, b);
  }

  lemma SeenWordsStep(state: ParserState, words: seq<Word>, seps: seq<string>)
    requires |words| == |seps| > 0 && Writable(words)
    ensures Expected(SeenWords(state, words, seps))
         == Before(Seen(state, words[0]), Expected(SeenWords(Behind(seps[0]), words[1..], seps[1..])))
  {
    hide Seen, Behind, WritableWord, Before;
    var all := SeenWords(state, words, seps);
    assert all[1..] == SeenWords(Behind(seps[0]), words[1..], seps[1..]);
  }

  lemma {:induction false} WordsReadBack(f: File, pos: nat, state: ParserState, words: seq<Word>, seps: seq<string>)
    requires |words| == |seps| && Writable(words) && Separators(seps) && !f.faulty
    requires HasAt(f, pos, Text(words, seps)) && pos + |Text(words, seps)| == |f.chars|
    requires state == NewLine || state == Space
    ensures var e := Expected(SeenWords(state, words, seps));
            && Tokenise(f, pos, Fresh(state)).rc == e.rc
            && (e.rc == Ok ==> Tokenise(f, pos, Fresh(state)) == e)
    decreases |words|
  {
    hide Feed, CString, HasAt, Separators, Writable, WritableWord, Written, Tokenise, AllSpace, AfterSpaces, Text;
    hide Seen, Behind, Expected, SeenWords;
    if words == [] {
      NothingLeft(f, pos, state, words, seps);
      return;
    }
    TailIsWritable(words, seps);
    Layout(f, pos, words, seps);
    SeenWordsStep(state, words, seps);
    var w, sep := words[0], seps[0];
    var p, s := pos + |Written(w)|, Seen(state, w);
    SeenIsClean(state, w);
    ReadWord(f, pos, Fresh(state), w);
    assert "" + s == s;
    if |s| <= BUFFER_SIZE {
      if sep == "" {
        LastWord(f, p, s, words, seps);
      } else {
        EndOfWord(f, p, s, sep);
        BehindIs(Data, sep);
        WordsReadBack(f, p + |sep|, Behind(sep), words[1..], seps[1..]);
      }
    }
  }

  lemma LastWord(f: File, p: nat, s: string, words: seq<Word>, seps: seq<string>)
    requires |words| == |seps| == 1 && seps[0] == "" && s != "" && '\0' !in s && Writable(words)
    requires !f.faulty && p + |seps[0]| + |Text(words[1..], seps[1..])| == |f.chars|
    ensures Tokenise(f, p, Reading(Data, s, false, Ok))
         == Before(s, Expected(SeenWords(Behind(seps[0]), words[1..], seps[1..])))
  {
    hide Tokenise, Behind, Before;
    EndOfFile(f, s);
    assert words[1..] == [];
  }

  lemma NothingLeft(f: File, pos: nat, state: ParserState, words: seq<Word>, seps: seq<string>)
    requires !f.faulty && words == [] && seps == [] && pos + |Text(words, seps)| == |f.chars|
    ensures Tokenise(f, pos, Fresh(state)) == Words([], Ok) == Expected(SeenWords(state, words, seps))
  {
  }

  /** Words written character by character, each with a backslash or plainly, and with white space
      between them, are read back exactly as they are seen, if and only if each then has at most
      255 characters; a longer one is an error. */
  lemma MixedRoundTrip(leading: string, words: seq<Word>, seps: seq<string>)
    requires |words| == |seps| && Writable(words) && Separators(seps) && AllSpace(leading)
    ensures var read, seen := ReadAll(File(leading + Text(words, seps), false), 0, NewLine), SeenWords(NewLine, words, seps);
            && ((forall i :: 0 <= i < |seen| ==> |seen[i]| <= 255) ==> read == Words(seen, Ok))
            && ((exists i :: 0 <= i < |seen| && |seen[i]| > 255) ==> read.rc == OutOfBuffer)
  {
    hide Feed, CString, Tokenise, ReadAll, Text, Separators, Writable, AllSpace, Expected, AfterSpaces, SeenWords;
    var f := File(leading + Text(words, seps), false);
    assert HasAt(f, 0, leading + Text(words, seps));
    HasParts(f, 0, leading, Text(words, seps));
    ReadAllTokenises(f, 0, NewLine);
    SkipSpaces(f, 0, NewLine, leading);
    BehindIs(NewLine, leading);
    WordsReadBack(f, |leading|, NewLine, words, seps);
    ExpectedIs(SeenWords(NewLine, words, seps));
  }

  /** Which dashes are added: those of the words that open a line, unless they start with a dash or a
      backslash. */
  lemma {:induction false} SeenWordIs(state: ParserState, words: seq<Word>, seps: seq<string>, i: nat)
    requires |words| == |seps| && Writable(words) && i < |words|
    ensures var opens := if i == 0 then state == NewLine else exists c :: c in seps[i - 1] && c in LINE_ENDS;
            var dashes := opens && !words[i][0].escaped && words[i][0].c != '-';
            SeenWords(state, words, seps)[i] == (if dashes then "--" else "") + Chars(words[i])
    decreases i
  {
    hide WritableWord, Chars;
    if i > 0 {
      SeenWordIs(Behind(seps[0]), words[1..], seps[1..], i - 1);
    }
  }

  // Words that are escaped, or plain, as a whole.

  function AllOf(w: string, escaped: bool): (p: Word)
    ensures |p| == |w|
  {
    seq(|w|, i requires 0 <= i < |w| => Piece(w[i], escaped))
  }

  function Pieces(words: seq<string>, escaped: bool): (p: seq<Word>)
    ensures |p| == |words|
  {
    seq(|words|, i requires 0 <= i < |words| => AllOf(words[i], escaped))
  }

  lemma CharsOfAll(w: string, escaped: bool)
    ensures Chars(AllOf(w, escaped)) == w
  {
  }

  /** With every character escaped, any words without zero characters come back as they were. */
  lemma EscapedRoundTrip(leading: string, words: seq<string>, seps: seq<string>)
    requires |words| == |seps| && Separators(seps) && AllSpace(leading)
    requires forall i :: 0 <= i < |words| ==> words[i] != "" && '\0' !in words[i]
    ensures var read := ReadAll(File(leading + Text(Pieces(words, true), seps), false), 0, NewLine);
            && ((forall i :: 0 <= i < |words| ==> |words[i]| <= 255) ==> read == Words(words, Ok))
            && ((exists i :: 0 <= i < |words| && |words[i]| > 255) ==> read.rc == OutOfBuffer)
  {
    hide Separators, AllSpace, ReadAll, Text, SeenWords, Plain;
    var p := Pieces(words, true);
    MixedRoundTrip(leading, p, seps);
    var seen := SeenWords(NewLine, p, seps);
    forall i | 0 <= i < |words|
      ensures seen[i] == words[i]
    {
      SeenWordIs(NewLine, p, seps, i);
      CharsOfAll(words[i], true);
    }
    assert seen == words;
  }

  /** Whether word i is the first of its line. */
  predicate OpensLine(seps: seq<string>, i: nat)
    requires i <= |seps|
  {
    i == 0 || exists c :: c in seps[i - 1] && c in LINE_ENDS
  }

  function WithDashes(words: seq<string>, seps: seq<string>): (s: seq<string>)
    requires |words| == |seps| && forall i :: 0 <= i < |words| ==> words[i] != ""
    ensures |s| == |words|
  {
    seq(|words|, i requires 0 <= i < |words| =>
      (if OpensLine(seps, i) && words[i][0] != '-' then "--" else "") + words[i])
  }

  /** Words and separators just as they are. */
  function Joined(words: seq<string>, seps: seq<string>): string
    requires |words| == |seps|
  {
    if words == [] then "" else words[0] + seps[0] + Joined(words[1..], seps[1..])
  }

  lemma {:induction false} WrittenPlain(w: string)
    ensures Written(AllOf(w, false)) == w
  {
    if w != "" {
      var p := AllOf(w, false);
      assert p[1..] == AllOf(w[1..], false);
      WrittenPlain(w[1..]);
    }
  }

  lemma {:induction false} TextPlain(words: seq<string>, seps: seq<string>)
    requires |words| == |seps|
    ensures Text(Pieces(words, false), seps) == Joined(words, seps)
    decreases |words|
  {
    hide Written;
    if words != [] {
      var p := Pieces(words, false);
      assert p[1..] == Pieces(words[1..], false);
      TextPlain(words[1..], seps[1..]);
      WrittenPlain(words[0]);
    }
  }

  /** An ordinary file: words without backslash, number sign, white space and zero characters, as they
      are. They come back as they were, the first of each line with two dashes in front unless it
      starts with one, if and only if each then has at most 255 characters. */
  lemma PlainRoundTrip(leading: string, words: seq<string>, seps: seq<string>)
    requires |words| == |seps| && Separators(seps) && AllSpace(leading)
    requires forall i :: 0 <= i < |words| ==> words[i] != "" && '\0' !in words[i] && forall c :: c in words[i] ==> Plain(c)
    ensures var read, seen := ReadAll(File(leading + Joined(words, seps), false), 0, NewLine), WithDashes(words, seps);
            && ((forall i :: 0 <= i < |seen| ==> |seen[i]| <= 255) ==> read == Words(seen, Ok))
            && ((exists i :: 0 <= i < |seen| && |seen[i]| > 255) ==> read.rc == OutOfBuffer)
  {
    hide Separators, AllSpace, ReadAll, Text, Joined, SeenWords, Plain;
    var p := Pieces(words, false);
    TextPlain(words, seps);
    MixedRoundTrip(leading, p, seps);
    var seen := SeenWords(NewLine, p, seps);
    forall i | 0 <= i < |words|
      ensures seen[i] == WithDashes(words, seps)[i]
    {
      SeenWordIs(NewLine, p, seps, i);
      CharsOfAll(words[i], false);
    }
    assert seen == WithDashes(words, seps);
  }

  /** For example, a line with a name and a value. */
  lemma NameAndValue()
    ensures ReadAll(File("username test\n", false), 0, NewLine) == Words(["--username", "test"], Ok)
  {
    hide ReadAll;
    var words, seps := ["username", "test"], [" ", "\n"];
    assert words[1..] == ["test"] && words[1..][1..] == [] && seps[1..] == ["\n"] && seps[1..][1..] == [];
    assert Joined(words, seps) == "username" + " " + ("test" + "\n" + "");
    assert "" + ("username" + " " + ("test" + "\n" + "")) == "username test\n";
    PlainRoundTrip("", words, seps);
    assert OpensLine(seps, 0) && !OpensLine(seps, 1);
    assert "--" + "username" == "--username" && "" + "test" == "test";
    assert WithDashes(words, seps) == ["--username", "test"];
  }

  // ----- Comments -----

  predicate IsComment(s: string) {
    |s| >= 2 && s[0] == '#' && EndsLine(s[|s| - 1]) && forall i :: 0 < i < |s| - 1 ==> !EndsLine(s[i])
  }

  lemma FeedComment(r: Reading, c: char)
    requires !r.ended && r.rc == Ok
    ensures r.state == Comment ==> Feed(r, c) == r.(state := if EndsLine(c) then NewLine else Comment)
    ensures Open(r.state) ==> Feed(r, '#') == r.(state := Comment)
  {
  }

  lemma {:induction false} InComment(f: File, pos: nat, r: Reading, s: string, from: nat)
    requires HasAt(f, pos, s) && IsComment(s) && 0 < from < |s|
    requires !r.ended && r.rc == Ok && r.state == Comment
    ensures Tokenise(f, pos + from, r) == Tokenise(f, pos + |s|, r.(state := NewLine))
    decreases |s| - from
  {
    hide Feed, Tokenise, EndsLine;
    assert f.chars[pos + from] == s[from];
    FeedComment(r, s[from]);
    if from == |s| - 1 {
      TokeniseOn(f, pos + from, r, r.(state := NewLine));
    } else {
      TokeniseOn(f, pos + from, r, r);
      InComment(f, pos, r, s, from + 1);
    }
  }

  /** A comment leaves the buffer alone and starts a new line, but it does not end a word that
      stands directly before it: that word goes on with the next line. */
  lemma CommentIsSkipped(f: File, pos: nat, r: Reading, s: string)
    requires HasAt(f, pos, s) && IsComment(s)
    requires !r.ended && r.rc == Ok && Open(r.state)
    ensures Tokenise(f, pos, r) == Tokenise(f, pos + |s|, r.(state := NewLine))
  {
    hide Feed, Tokenise, EndsLine;
    assert f.chars[pos + 0] == s[0];
    FeedComment(r, s[0]);
    TokeniseOn(f, pos, r, r.(state := Comment));
    InComment(f, pos, r.(state := Comment), s, 1);
  }

  lemma FeedName(buffer: string, c: char)
    requires |buffer| + 3 <= BUFFER_SIZE && 'a' <= c <= 'z'
    ensures Feed(Reading(NewLine, buffer, false, Ok), c) == Reading(Data, buffer + "--" + [c], false, Ok)
  {
  }

  /** So two lines become one word, with the dashes of the second line inside it. */
  lemma CommentGluesLines()
    ensures ReadAll(File("a#\nb", false), 0, NewLine) == Words(["--a--b"], Ok)
  {
    hide ReadAll, Feed, Tokenise;
    var f := File("a#\nb", false);
    ReadAllTokenises(f, 0, NewLine);
    FeedName("", 'a');
    TokeniseOn(f, 0, Fresh(NewLine), Reading(Data, "--a", false, Ok));
    CommentIsSkipped(f, 1, Reading(Data, "--a", false, Ok), "#\n");
    FeedName("--a", 'b');
    TokeniseOn(f, 3, Reading(NewLine, "--a", false, Ok), Reading(Data, "--a--b", false, Ok));
    EndOfFile(f, "--a--b");
  }

  /** A comment acts as the line end it contains, except behind a word: there the line end would
      end the word, and the comment does not. */
  lemma CommentActsAsLineEnd(r: Reading, s: string)
    requires IsComment(s) && !r.ended && r.rc == Ok && Open(r.state)
    ensures Feed(r, s[|s| - 1]) == r.(state := NewLine) <==> r.state != Data
  {
    hide Feed;
    FeedSpace(r, s[|s| - 1]);
  }

  /** Reading on with something in the buffer: the same characters go behind it, if they fit. */
  lemma FeedBehind(w: string, r: Reading, c: char)
    requires !r.ended && r.rc == Ok
    ensures var p, p' := Feed(r, c), Feed(r.(buffer := w + r.buffer), c);
            && |p.buffer| >= |r.buffer|
            && (p'.rc == Ok ==> p' == p.(buffer := w + p.buffer))
            && (p'.rc != Ok ==> p.rc != Ok || |w| + |p.buffer| > BUFFER_SIZE)
            && (p.rc != Ok ==> p'.rc != Ok)
  {
    PushBehind(w, r, [c], Data);
    PushBehind(w, r, "--", NewLine);
    var dashed := Push(r, "--", NewLine);
    PushBehind(w, dashed, [c], Data);
  }

  lemma PushBehind(w: string, r: Reading, chars: string, next: ParserState)
    ensures var p, p' := Push(r, chars, next), Push(r.(buffer := w + r.buffer), chars, next);
            && |p.buffer| >= |r.buffer|
            && (|w| + |r.buffer| + |chars| <= BUFFER_SIZE ==> p' == p.(buffer := w + p.buffer))
            && (|w| + |r.buffer| + |chars| > BUFFER_SIZE ==> p'.rc == OutOfBuffer)
            && (|r.buffer| + |chars| > BUFFER_SIZE ==> p.rc == OutOfBuffer)
            && (|r.buffer| + |chars| <= BUFFER_SIZE ==> p.rc == r.rc && |p.buffer| == |r.buffer| + |chars|)
  {
    assert w + r.buffer + chars == w + (r.buffer + chars);
  }

  lemma {:induction false} ReadBehind(f: File, pos: nat, w: string, r: Reading)
    requires pos <= |f.chars| && !r.ended && r.rc == Ok
    ensures var o, o' := ReadOption(f, pos, r), ReadOption(f, pos, r.(buffer := w + r.buffer));
            && |o.buffer| >= |r.buffer|
            && (o'.rc == Ok <==> o.rc == Ok && |w| + |o.buffer| < BUFFER_SIZE)
            && (o'.rc == Ok ==> o' == o.(buffer := w + o.buffer))
    decreases |f.chars| - pos
  {
    hide Feed;
    if pos < |f.chars| {
      var c := f.chars[pos];
      FeedBehind(w, r, c);
      var p, p' := Feed(r, c), Feed(r.(buffer := w + r.buffer), c);
      if p.rc == Ok && !p.ended {
        ReadBehind(f, pos + 1, w, p);
      }
    }
  }

  lemma {:induction false} CStringBehind(w: string, x: string)
    requires '\0' !in w
    ensures CString(w + x) == w + CString(x)
  {
    if w == "" {
      assert w + x == x;
    } else {
      assert (w + x)[1..] == w[1..] + x;
      CStringBehind(w[1..], x);
    }
  }

  predicate NoZeroFrom(f: File, pos: nat) {
    forall i :: pos <= i < |f.chars| ==> f.chars[i] != '\0'
  }

  lemma {:induction false} ReadsNoZero(f: File, pos: nat, r: Reading)
    requires pos <= |f.chars| && !r.ended && r.rc == Ok && '\0' !in r.buffer && NoZeroFrom(f, pos)
    ensures '\0' !in ReadOption(f, pos, r).buffer
    decreases |f.chars| - pos
  {
    if pos < |f.chars| {
      FeedsNoZero(r, f.chars[pos]);
      hide Feed;
      var p := Feed(r, f.chars[pos]);
      if p.rc == Ok && !p.ended {
        ReadsNoZero(f, pos + 1, p);
      }
    }
  }

  lemma FeedsNoZero(r: Reading, c: char)
    requires !r.ended && r.rc == Ok && '\0' !in r.buffer && c != '\0'
    ensures '\0' !in Feed(r, c).buffer
  {
  }

  /** The first word read is w. */
  predicate StartsWith(t: Words, w: string) {
    t.words != [] && t.words[0] == w
  }

  /** A comment of the file: up to the end of its line, or of the file. */
  predicate CommentAt(f: File, pos: nat, s: string) {
    && HasAt(f, pos, s)
    && (IsComment(s) || (IsLastComment(s) && pos + |s| == |f.chars|))
  }

  predicate IsLastComment(s: string) {
    |s| >= 1 && s[0] == '#' && forall i :: 0 < i < |s| ==> !EndsLine(s[i])
  }

  lemma {:induction false} InLastComment(f: File, pos: nat, r: Reading, s: string, from: nat)
    requires HasAt(f, pos, s) && IsLastComment(s) && 0 < from <= |s| && pos + |s| == |f.chars|
    requires !r.ended && r.rc == Ok && r.state == Comment
    ensures Tokenise(f, pos + from, r) == Tokenise(f, |f.chars|, r)
    decreases |s| - from
  {
    hide Feed, Tokenise, EndsLine;
    if from < |s| {
      assert f.chars[pos + from] == s[from];
      FeedComment(r, s[from]);
      TokeniseOn(f, pos + from, r, r);
      InLastComment(f, pos, r, s, from + 1);
    }
  }

  /** At the end of the file it does not matter in which state the parser is. */
  lemma StateAtEnd(f: File, r: Reading, state: ParserState)
    requires !r.ended && r.rc == Ok
    ensures Tokenise(f, |f.chars|, r) == Tokenise(f, |f.chars|, r.(state := state))
  {
    hide CString;
  }

  /** Behind either kind of comment the file is read on as from the start of a line. */
  lemma AnyCommentIsSkipped(f: File, pos: nat, r: Reading, s: string)
    requires CommentAt(f, pos, s) && !r.ended && r.rc == Ok && Open(r.state)
    ensures Tokenise(f, pos, r) == Tokenise(f, pos + |s|, r.(state := NewLine))
  {
    hide Feed, Tokenise, EndsLine;
    if IsComment(s) {
      CommentIsSkipped(f, pos, r, s);
    } else {
      assert f.chars[pos + 0] == s[0];
      FeedComment(r, s[0]);
      TokeniseOn(f, pos, r, r.(state := Comment));
      InLastComment(f, pos, r.(state := Comment), s, 1);
      StateAtEnd(f, r.(state := Comment), NewLine);
    }
  }

  /** A word directly before a comment: it stays a word of its own exactly if reading on behind the
      comment adds nothing to it. */
  lemma WordAtComment(f: File, pos: nat, w: string, s: string)
    requires CommentAt(f, pos, s)
    requires w != "" && '\0' !in w && |w| < BUFFER_SIZE
    ensures var o := ReadOption(f, pos + |s|, Fresh(NewLine));
            StartsWith(Tokenise(f, pos, Reading(Data, w, false, Ok)), w) <==>
            o.rc == Ok && CString(o.buffer) == "" && |w| + |o.buffer| < BUFFER_SIZE
  {
    hide Tokenise, ReadOption, CString, IsComment, IsLastComment, HasAt;
    var q := pos + |s|;
    AnyCommentIsSkipped(f, pos, Reading(Data, w, false, Ok), s);
    EndOfComment(f, pos, s);
    TokeniseByOption(f, q, Reading(NewLine, w, false, Ok));
    assert w + "" == w;
    ReadBehind(f, q, w, Fresh(NewLine));
    var o := ReadOption(f, q, Fresh(NewLine));
    CStringBehind(w, o.buffer);
  }

  /** So it does before a comment that runs to the end of the file, unless reading it fails. */
  lemma WordBeforeLastComment(f: File, pos: nat, w: string, s: string)
    requires HasAt(f, pos, s) && IsLastComment(s) && pos + |s| == |f.chars|
    requires w != "" && '\0' !in w
    ensures Tokenise(f, pos, Reading(Data, w, false, Ok))
         == if f.faulty then Words([], ReadError) else Before(w, Words([], Ok))
  {
    hide Tokenise, IsComment, IsLastComment, HasAt;
    AnyCommentIsSkipped(f, pos, Reading(Data, w, false, Ok), s);
    StateAtEnd(f, Reading(NewLine, w, false, Ok), Data);
    if f.faulty {
      FaultAtEnd(f, Reading(Data, w, false, Ok));
    } else {
      EndOfFile(f, w);
    }
  }

  lemma FaultAtEnd(f: File, r: Reading)
    requires f.faulty && !r.ended && r.rc == Ok
    ensures Tokenise(f, |f.chars|, r) == Words([], ReadError)
  {
  }

  lemma EndOfComment(f: File, pos: nat, s: string)
    requires HasAt(f, pos, s)
    ensures pos + |s| <= |f.chars|
  {
  }

  lemma NoWordLeft(f: File, q: nat)
    requires q <= |f.chars|
    ensures var o := ReadOption(f, q, Fresh(NewLine));
            ReadAll(f, q, NewLine) == Words([], Ok) <==> o.rc == Ok && CString(o.buffer) == ""
  {
    hide ReadOption, CString;
  }

  /** The word before a comment stays a word of its own if and only if white space stands between
      them, or reading on adds nothing to it. Unless the file holds zero characters, which end words
      unseen, the latter means that no further word follows in the file. */
  lemma WordBeforeComment(f: File, pos: nat, w: string, gap: string, s: string)
    requires AllSpace(gap) && HasAt(f, pos, gap) && CommentAt(f, pos + |gap|, s)
    requires w != "" && '\0' !in w && |w| < BUFFER_SIZE
    ensures var q := pos + |gap| + |s|;
            var stays := StartsWith(Tokenise(f, pos, Reading(Data, w, false, Ok)), w);
            var o := ReadOption(f, q, Fresh(NewLine));
            && (stays <==> gap != "" || (o.rc == Ok && CString(o.buffer) == "" && |w| + |o.buffer| < BUFFER_SIZE))
            && (NoZeroFrom(f, q) ==> (stays <==> gap != "" || ReadAll(f, q, NewLine) == Words([], Ok)))
  {
    hide Tokenise, ReadOption, CString, IsComment, IsLastComment, ReadAll, AfterSpaces, AllSpace;
    if gap != "" {
      EndOfWord(f, pos, w, gap);
    } else {
      var q := pos + |s|;
      WordAtComment(f, pos, w, s);
      NoWordLeft(f, q);
      if NoZeroFrom(f, q) {
        ReadsNoZero(f, q, Fresh(NewLine));
      }
    }
  }

  // ----- The parser itself -----

  lemma {:induction false} CStringStops(s: string, junk: string)
    ensures CString(s + "\0" + junk) == CString(s)
  {
    var all := s + "\0" + junk;
    if s != "" && s[0] != '\0' {
      assert all[1..] == s[1..] + "\0" + junk;
      CStringStops(s[1..], junk);
    }
  }

  /** push_in_buffer: the characters go behind the first count ones, if there is room. */
  method PushInBuffer(src: string, buffer: array<char>, count: nat) returns (rc: Rc, length: nat)
    requires count <= buffer.Length == BUFFER_SIZE
    modifies buffer
    ensures rc == if count + |src| > BUFFER_SIZE then OutOfBuffer else Ok
    ensures length == if rc == Ok then count + |src| else count
    ensures length <= BUFFER_SIZE
    ensures buffer[..length] == old(buffer[..count]) + if rc == Ok then src else ""
  {
    if count + |src| > buffer.Length {
      return OutOfBuffer, count;
    }
    for i := 0 to |src|
      invariant buffer[..count + i] == old(buffer[..count]) + src[..i]
    {
      buffer[count + i] := src[i];
    }
    return Ok, count + |src|;
  }

  /** OPTION_FILE_PARSER, with the place in the file that the stream keeps. */
  class OptionFileParser {
    const file: File
    var pos: nat
    var atEnd: bool
    var state: ParserState

    predicate Valid() reads this { pos <= |file.chars| }

    /** parser_init */
    constructor (file: File)
      ensures Valid() && this.file == file && pos == 0 && !atEnd && state == NewLine
    {
      this.file := file;
      pos, atEnd, state := 0, false, NewLine;
    }

    ghost function Now(buffer: array<char>, count: nat, ended: bool, rc: Rc): Reading
      requires count <= buffer.Length
      reads this, buffer
    {
      Reading(state, buffer[..count], ended, rc)
    }

    /** The switch, for one character. */
    method TakeChar(ch: char, buffer: array<char>, count: nat) returns (rc: Rc, length: nat, parseEnd: bool)
      requires count <= buffer.Length == BUFFER_SIZE
      modifies this`state, buffer
      ensures length <= BUFFER_SIZE
      ensures Now(buffer, length, parseEnd, rc) == Feed(old(Now(buffer, count, false, Ok)), ch)
    {
      rc, length, parseEnd := Ok, count, false;
      match state {
        case NewLine =>
          if ch == '\\' {
            state := Escape;
          } else if ch == '#' {
            state := Comment;
          } else if !IsSpace(ch) {
            if ch != '-' {
              rc, length := PushInBuffer("--", buffer, length);
              if rc != Ok { return; }
            }
            rc, length := PushInBuffer([ch], buffer, length);
            if rc == Ok { state := Data; }
          }
        case Space =>
          if ch == '\\' {
            state := Escape;
          } else if ch == '#' {
            state := Comment;
          } else if EndsLine(ch) {
            state := NewLine;
          } else if !IsSpace(ch) {
            rc, length := PushInBuffer([ch], buffer, length);
            if rc == Ok { state := Data; }
          }
        case Comment =>
          if EndsLine(ch) { state := NewLine; }
        case Data =>
          if ch == '\\' {
            state := Escape;
          } else if ch == '#' {
            state := Comment;
          } else if EndsLine(ch) {
            state, parseEnd := NewLine, true;
          } else if IsSpace(ch) {
            state, parseEnd := Space, true;
          } else {
            rc, length := PushInBuffer([ch], buffer, length);
          }
        case Escape =>
          rc, length := PushInBuffer([ch], buffer, length);
          if rc == Ok { state := Data; }
      }
    }

    /** The loop of parser_read_option, up to the terminating zero. */
    method ReadChars(buffer: array<char>) returns (rc: Rc, count: nat)
      requires Valid() && !atEnd && buffer.Length == BUFFER_SIZE
      modifies this, buffer
      ensures Valid() && count <= BUFFER_SIZE
      ensures Terminate(Option(rc, buffer[..count], pos, state, atEnd))
           == ReadOption(file, old(pos), Fresh(old(state)))
    {
      hide Feed;
      rc, count := Ok, 0;
      var parseEnd := false;
      while !parseEnd && rc == Ok && !atEnd
        invariant Valid() && count <= BUFFER_SIZE
        invariant if parseEnd || rc != Ok || atEnd
                  then Terminate(Option(rc, buffer[..count], pos, state, atEnd))
                       == ReadOption(file, old(pos), Fresh(old(state)))
                  else ReadOption(file, pos, Now(buffer, count, false, Ok))
                       == ReadOption(file, old(pos), Fresh(old(state)))
        decreases |file.chars| - pos, !parseEnd && rc == Ok && !atEnd
      {
        if pos == |file.chars| {
          if file.faulty { rc := ReadError; } else { atEnd := true; }
        } else {
          var ch := file.chars[pos];
          pos := pos + 1;
          rc, count, parseEnd := TakeChar(ch, buffer, count);
        }
      }
    }

    /** parser_read_option */
    method ReadOneOption(buffer: array<char>) returns (rc: Rc)
      requires Valid() && !atEnd && buffer.Length == BUFFER_SIZE
      modifies this, buffer
      ensures Valid()
      ensures var o := ReadOption(file, old(pos), Fresh(old(state)));
              && rc == o.rc && pos == o.pos && state == o.state && atEnd == o.atEnd
              && (rc == Ok ==> CString(buffer[..]) == CString(o.buffer))
    {
      hide ReadOption;
      var count;
      rc, count := ReadChars(buffer);
      if rc == Ok {
        ghost var word := buffer[..count];
        rc, count := PushInBuffer("\0", buffer, count);
        if rc == Ok {
          assert buffer[..] == buffer[..count] + buffer[count..];
          CStringStops(word, buffer[count..]);
        }
      }
    }
  }

  /** Words added to the command line by cmd_add_val: room(n) says whether there is memory for the
      n-th of them. */
  function Stored(t: Words, n: nat, room: nat -> bool): Words
    decreases |t.words|
  {
    if t.words == [] then t
    else if !room(n) then Words([], OutOfMemory)
    else Ahead([t.words[0]], Stored(Words(t.words[1..], t.rc), n + 1, room))
  }

  function Ahead(before: seq<string>, rest: Words): Words {
    Words(before + rest.words, rest.rc)
  }

  lemma {:induction false} StoredAll(t: Words, n: nat, room: nat -> bool)
    requires forall m :: n <= m < n + |t.words| ==> room(m)
    ensures Stored(t, n, room) == t
    decreases |t.words|
  {
    if t.words != [] {
      StoredAll(Words(t.words[1..], t.rc), n + 1, room);
    }
  }

  /** Without memory for all words, those before the first failure are stored. */
  lemma {:induction false} StoredSome(t: Words, n: nat, room: nat -> bool, k: nat)
    requires n <= k < n + |t.words| && !room(k) && forall m :: n <= m < k ==> room(m)
    ensures Stored(t, n, room) == Words(t.words[..k - n], OutOfMemory)
    decreases |t.words|
  {
    if k > n {
      StoredSome(Words(t.words[1..], t.rc), n + 1, room, k);
      assert t.words[..k - n] == [t.words[0]] + t.words[1..][..k - n - 1];
    }
  }

  /** One turn of the read loop. */
  lemma StoredStep(f: File, pos: nat, state: ParserState, n: nat, room: nat -> bool)
    requires pos <= |f.chars|
    ensures var o := ReadOption(f, pos, Fresh(state));
            var w := CString(o.buffer);
            Stored(ReadAll(f, pos, state), n, room) ==
              if o.rc != Ok then Words([], o.rc)
              else if w == "" then Words([], Ok)
              else if !room(n) then Words([], OutOfMemory)
              else Ahead([w], if o.atEnd then Words([], Ok) else Stored(ReadAll(f, o.pos, o.state), n + 1, room))
  {
    hide ReadOption, CString;
    var o := ReadOption(f, pos, Fresh(state));
    if o.rc == Ok && CString(o.buffer) != "" && !o.atEnd {
      var t, rest := ReadAll(f, pos, state), ReadAll(f, o.pos, o.state);
      assert t.words[1..] == rest.words;
    }
  }

  lemma AheadTwice(a: seq<string>, w: string, rest: Words)
    ensures Ahead(a, Ahead([w], rest)) == Ahead(a + [w], rest)
    ensures Ahead(a, Words([], rest.rc)) == Words(a, rest.rc)
  {
    assert a + ([w] + rest.words) == a + [w] + rest.words;
  }

  /** get_options_from_file_handler: memory and opens say whether there is memory for the buffer and
      whether the file can be opened. */
  method GetOptionsFromFile(file: File, memory: bool, opens: bool, room: nat -> bool)
    returns (words: seq<string>, rc: Rc)
    ensures Words(words, rc) ==
            if !memory then Words([], OutOfMemory)
            else if !opens then Words([], OpenError)
            else Stored(ReadAll(file, 0, NewLine), 0, room)
  {
    words, rc := [], Ok;
    if !memory {
      return [], OutOfMemory;
    }
    var buffer := new char[BUFFER_SIZE];
    if !opens {
      return [], OpenError;
    }
    hide ReadOption, CString, ReadAll, Stored, Ahead;
    var parser := new OptionFileParser(file);
    ghost var goal := Stored(ReadAll(file, 0, NewLine), 0, room);
    var stop := false;
    AheadNone(goal);
    while !parser.atEnd && !stop
      invariant parser.Valid() && parser.file == file && fresh(parser) && fresh(buffer)
      invariant buffer.Length == BUFFER_SIZE
      invariant if stop || parser.atEnd
                then Words(words, rc) == goal
                else goal == Ahead(words, Stored(ReadAll(file, parser.pos, parser.state), |words|, room))
      decreases |file.chars| - parser.pos, !parser.atEnd && !stop
    {
      StoredStep(file, parser.pos, parser.state, |words|, room);
      rc := parser.ReadOneOption(buffer);
      var word := CString(buffer[..]);
      AheadTwice(words, word, Words([], rc));
      AheadTwice(words, word, Words([], OutOfMemory));
      AheadTwice(words + [word], word, Words([], Ok));
      AheadTwice(words, word, Stored(ReadAll(file, parser.pos, parser.state), |words| + 1, room));
      if rc != Ok || word == "" {
        stop := true;
      } else if !room(|words|) {
        rc, stop := OutOfMemory, true;
      } else {
        words := words + [word];
      }
    }
  }

  lemma AheadNone(t: Words)
    ensures Ahead([], t) == t
  {
  }
}
