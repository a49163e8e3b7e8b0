/** The factory `open_iterable`: validates a mode string and the decoding
    options, then chooses which layers to stack over the raw reader. The
    buffering and text layers belong to the io library and appear here only as
    tags. */
module OpenIterable {
  import opened Wrappers

  type Pos = n: nat | n > 0 witness 1

  /** `io.DEFAULT_BUFFER_SIZE`: platform-defined, so only its positivity is known. */
  const DefaultBufferSize: Pos

  /** The stream object `open_iterable` returns, as the stack of layers it is
      built from. */
  datatype Stream =
    | RawIterableReader
    | BufferedReader(raw: Stream, bufferSize: int)
    | TextIOWrapper(buffer: Stream, encoding: Option<string>, errors: Option<string>,
                    newline: Option<string>, mode: string)

  /** The ValueErrors raised by the validation rules, in the order they are checked. */
  datatype ModeError =
    | InvalidMode
    | MustSpecifyRead
    | TextAndBinary
    | BinaryWithEncoding
    | BinaryWithErrors
    | BinaryWithNewline
    | UnbufferedText

  /** `set(mode)` */
  function Chars(s: string): (cs: set<char>)
  {
    set c | c in s
  }

  predicate NoRepeats(s: string)
  {
    forall i, j :: 0 <= i < j < |s| ==> s[i] != s[j]
  }

  /** `len(mode) > len(set(mode))` exactly when some character is repeated. */
  lemma {:induction false} CharsCard(s: string)
    ensures |Chars(s)| <= |s|
    ensures |Chars(s)| == |s| <==> NoRepeats(s)
  {
    if s != [] {
      var t := s[1..];
      CharsCard(t);
      assert Chars(s) == {s[0]} + Chars(t);
      if s[0] in t {
        assert Chars(s) == Chars(t);
        var k :| 0 <= k < |t| && t[k] == s[0];
        assert s[0] == s[k + 1];
      } else {
        assert s[0] !in Chars(t);
        if !NoRepeats(t) {
          var i, j :| 0 <= i < j < |t| && t[i] == t[j];
          assert s[i + 1] == s[j + 1];
        }
        if NoRepeats(t) {
          forall i, j | 0 <= i < j < |s| ensures s[i] != s[j] {
            if i > 0 {
              assert t[i - 1] != t[j - 1];
            } else {
              assert s[j] == t[j - 1];
            }
          }
        }
      }
    }
  }

  lemma SubsetCard<T>(a: set<T>, b: set<T>)
    requires a <= b
    ensures |a| <= |b|
  {
    if a != {} {
      var x :| x in a;
      SubsetCard(a - {x}, b - {x});
    }
  }

  /** The buffer size actually used when buffering is on: the default for a
      negative request, the request itself otherwise. */
  function BufferSize(buffering: int): (size: nat)
    requires buffering != 0
    ensures size > 0
    ensures buffering > 0 ==> size == buffering
    ensures buffering < 0 ==> size == DefaultBufferSize
  {
    if buffering < 0 then DefaultBufferSize else buffering
  }

  function Open(mode: string, buffering: int, encoding: Option<string>, errors: Option<string>,
                newline: Option<string>): (r: Result<Stream, ModeError>)
    // unbuffered: the raw reader itself, which only binary mode can get
    ensures r.Success? ==> (r.value == RawIterableReader <==> buffering == 0)
    ensures r == Success(RawIterableReader) ==> 'b' in mode
    // buffered binary: one buffering layer of the resolved size over the raw reader
    ensures r.Success? && buffering != 0 && 'b' in mode ==>
              r.value == BufferedReader(RawIterableReader, BufferSize(buffering))
    // text: a text layer with the caller's options and mode over that buffering layer
    ensures r.Success? && 'b' !in mode ==>
              r.value == TextIOWrapper(BufferedReader(RawIterableReader, BufferSize(buffering)),
                                       encoding, errors, newline, mode)
  {
    var modes := Chars(mode);
    if !(modes <= {'r', 't', 'b'}) || |mode| > |modes| then Failure(InvalidMode)
    else
      var reading := 'r' in modes;
      var binary := 'b' in modes;
      var text := 't' in modes || (reading && !binary);
      if !reading then Failure(MustSpecifyRead)
      else if text && binary then Failure(TextAndBinary)
      else if binary && encoding.Some? then Failure(BinaryWithEncoding)
      else if binary && errors.Some? then Failure(BinaryWithErrors)
      else if binary && newline.Some? then Failure(BinaryWithNewline)
      else if text && buffering == 0 then Failure(UnbufferedText)
      else if buffering == 0 then Success(RawIterableReader)
      else
        var buffered := BufferedReader(RawIterableReader, BufferSize(buffering));
        if binary then Success(buffered)
        else Success(TextIOWrapper(buffered, encoding, errors, newline, mode))
  }

  /** Each validation rule on its own, as the condition that breaks it once the
      earlier rules hold (text mode is then exactly the absence of 'b'). */
  predicate Broken(rule: ModeError, mode: string, buffering: int, encoding: Option<string>,
                   errors: Option<string>, newline: Option<string>)
  {
    match rule
    case InvalidMode => (exists i :: 0 <= i < |mode| && mode[i] !in "rtb") || !NoRepeats(mode)
    case MustSpecifyRead => 'r' !in mode
    case TextAndBinary => 't' in mode && 'b' in mode
    case BinaryWithEncoding => 'b' in mode && encoding.Some?
    case BinaryWithErrors => 'b' in mode && errors.Some?
    case BinaryWithNewline => 'b' in mode && newline.Some?
    case UnbufferedText => 'b' !in mode && buffering == 0
  }

  /** The position of a rule in the order of checking. */
  function Rank(rule: ModeError): (rank: nat)
  {
    match rule
    case InvalidMode => 0
    case MustSpecifyRead => 1
    case TextAndBinary => 2
    case BinaryWithEncoding => 3
    case BinaryWithErrors => 4
    case BinaryWithNewline => 5
    case UnbufferedText => 6
  }

  /** `open_iterable` fails exactly when some rule is broken, and then with
      the first broken rule in the order of checking. */
  lemma OpenReportsFirstBrokenRule(mode: string, buffering: int, encoding: Option<string>,
                                   errors: Option<string>, newline: Option<string>)
    ensures Open(mode, buffering, encoding, errors, newline).Success? <==>
              forall rule :: !Broken(rule, mode, buffering, encoding, errors, newline)
    ensures Open(mode, buffering, encoding, errors, newline).Failure? ==>
              var first := Open(mode, buffering, encoding, errors, newline).error;
              && Broken(first, mode, buffering, encoding, errors, newline)
              && forall rule :: Rank(rule) < Rank(first) ==>
                   !Broken(rule, mode, buffering, encoding, errors, newline)
  {
    CharsCard(mode);
    var modes := Chars(mode);
    var outside := exists i :: 0 <= i < |mode| && mode[i] !in "rtb";
    if outside {
      var i :| 0 <= i < |mode| && mode[i] !in "rtb";
      assert mode[i] in modes;
    } else {
      forall c | c in modes ensures c in {'r', 't', 'b'} {
        var i :| 0 <= i < |mode| && mode[i] == c;
      }
    }
    var r := Open(mode, buffering, encoding, errors, newline);
    if r.Failure? {
      assert Broken(r.error, mode, buffering, encoding, errors, newline);
      forall rule | Rank(rule) < Rank(r.error)
        ensures !Broken(rule, mode, buffering, encoding, errors, newline)
      {
      }
    } else {
      forall rule ensures !Broken(rule, mode, buffering, encoding, errors, newline) {
        match rule
        case InvalidMode =>
        case MustSpecifyRead =>
        case TextAndBinary =>
        case BinaryWithEncoding =>
        case BinaryWithErrors =>
        case BinaryWithNewline =>
        case UnbufferedText =>
      }
    }
  }

  /** The accepted modes are exactly "r", "rt" and "rb" up to the order of
      their characters; binary mode takes no decoding option and text mode
      needs buffering. */
  lemma OpenAcceptsExactly(mode: string, buffering: int, encoding: Option<string>,
                           errors: Option<string>, newline: Option<string>)
    ensures Open(mode, buffering, encoding, errors, newline).Success? <==>
              || (mode in ["r", "rt", "tr"] && buffering != 0)
              || (mode in ["rb", "br"] && encoding.None? && errors.None? && newline.None?)
  {
    CharsCard(mode);
    var modes := Chars(mode);
    if Open(mode, buffering, encoding, errors, newline).Success? {
      assert modes <= {'r', 't', 'b'} && NoRepeats(mode);
      forall i | 0 <= i < |mode| ensures mode[i] in {'r', 't', 'b'} {
        assert mode[i] in modes;
      }
      assert 'r' in mode && !('t' in mode && 'b' in mode);
      var allowed := if 'b' in mode then {'r', 'b'} else {'r', 't'};
      assert modes <= allowed;
      SubsetCard(modes, allowed);
      if |mode| == 1 {
        assert mode == [mode[0]] && mode[0] == 'r';
        assert mode == "r";
      } else if |mode| == 2 {
        assert mode == [mode[0], mode[1]];
        assert mode == "rt" || mode == "tr" || mode == "rb" || mode == "br";
      }
      assert mode in ["r", "rt", "tr", "rb", "br"];
    }
    if mode in ["r", "rt", "tr", "rb", "br"] {
      assert NoRepeats(mode);
      assert modes <= {'r', 't', 'b'};
      assert |mode| == |modes|;
    }
  }

  /** The rejected configurations of the invalid-input test table. */
  lemma InvalidInputsRejected()
    ensures Open("", -1, None, None, None) == Failure(MustSpecifyRead)
    ensures Open("abc", -1, None, None, None) == Failure(InvalidMode)
    ensures Open("rtb", -1, None, None, None) == Failure(TextAndBinary)
    ensures Open("rt", 0, None, None, None) == Failure(UnbufferedText)
    ensures Open("rb", 0, Some("utf-8"), None, None) == Failure(BinaryWithEncoding)
    ensures Open("rb", 0, None, Some("ignore"), None) == Failure(BinaryWithErrors)
    ensures Open("rb", 0, None, None, Some("\n")) == Failure(BinaryWithNewline)
  {
    assert 'a' in Chars("abc");
    CharsCard("");
    CharsCard("rtb");
    CharsCard("rt");
    CharsCard("rb");
  }

  /** The layers returned in each mode, as the returned-class test expects. */
  lemma ReturnedLayers()
    ensures Open("rb", 0, None, None, None) == Success(RawIterableReader)
    ensures Open("rb", -1, None, None, None) == Success(BufferedReader(RawIterableReader, DefaultBufferSize))
    ensures Open("rb", 1, None, None, None) == Success(BufferedReader(RawIterableReader, 1))
    ensures Open("rt", -1, None, None, None).Success?
    ensures Open("rt", -1, None, None, None).value.TextIOWrapper?
    ensures Open("rt", 1, None, None, None).Success?
    ensures Open("rt", 1, None, None, None).value.TextIOWrapper?
    ensures Open("r", -1, None, None, None).Success?
  {
    OpenAcceptsExactly("rb", 0, None, None, None);
    OpenAcceptsExactly("rb", -1, None, None, None);
    OpenAcceptsExactly("rb", 1, None, None, None);
    OpenAcceptsExactly("rt", -1, None, None, None);
    OpenAcceptsExactly("rt", 1, None, None, None);
    OpenAcceptsExactly("r", -1, None, None, None);
  }
}
