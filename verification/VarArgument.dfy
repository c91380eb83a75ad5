/** The automaton that reads one template variable from command-line arguments. */
module VarArgument {
  import opened Text

  datatype VarType = StringType | ArrayType | MapType

  datatype Value = NoValue | Str(text: string) | Arr(items: seq<string>) | Map(key: string, value: string)

  datatype Phase = Initial | SawType | SawName | EndState

  function VarTypes(m: string): Option<VarType> {
    if m in {"A", "a", "array"} then Some(ArrayType)
    else if m in {"S", "s", "string"} then Some(StringType)
    else if m in {"M", "m", "map"} then Some(MapType)
    else None
  }

  // ---------- the inline format ----------

  predicate OneLine(s: string) { '\n' !in s }

  /** (.+)=(.+) matches: some equals sign has a character on either side. */
  predicate InnerEquals(rest: string) {
    exists i :: 0 < i < |rest| - 1 && rest[i] == '='
  }

  /** The inlineFormat pattern: a type word, a comma, and one line with an inner equals sign. */
  predicate InlineFormat(arg: string) {
    var (word, rest) := Cut(arg, ',');
    ',' in arg && VarTypes(word).Some? && OneLine(rest) && InnerEquals(rest)
  }

  // ---------- the state and its steps ----------

  datatype State = State(name: string, value: Value, myType: VarType, phase: Phase)

  const FRESH := State("", NoValue, StringType, Initial)

  function ValueOf(t: VarType, value: string): Value {
    match t
    case MapType => var (k, v) := Cut(value, '='); Map(k, v)
    case StringType => Str(value)
    case ArrayType => Arr(Split(value, ','))
  }

  function WithPair(s: State, arg: string): State {
    var (name, value) := Cut(arg, '=');
    s.(name := name, value := ValueOf(s.myType, value), phase := EndState)
  }

  /** None is the error "invalid template var"; the state is then unchanged. */
  function Next(s: State, arg: string): Option<State> {
    match s.phase
    case Initial =>
      var (word, rest) := Cut(arg, ',');
      if InlineFormat(arg) then Some(WithPair(s.(myType := VarTypes(word).value), rest))
      else if '=' in arg then Some(WithPair(s, arg))
      else if VarTypes(arg).Some? then Some(s.(myType := VarTypes(arg).value, phase := SawType))
      else None
    case EndState => Some(s)
    case SawName => Some(s.(value := ValueOf(s.myType, arg), phase := EndState))
    case SawType =>
      if '=' in arg then Some(WithPair(s, arg)) else Some(s.(name := arg, phase := SawName))
  }

  class VarState {
    var name: string
    var value: Value
    var myType: VarType
    var phase: Phase

    constructor ()
      ensures Abstract() == FRESH
    {
      name, value, myType, phase := "", NoValue, StringType, Initial;
    }

    function Abstract(): State
      reads this
    {
      State(name, value, myType, phase)
    }

    method SetValue(v: string)
      modifies this`value
      ensures value == ValueOf(myType, v)
    {
      match myType {
        case MapType =>
          var (k, rest) := Cut(v, '=');
          value := Map(k, rest);
        case StringType => value := Str(v);
        case ArrayType => value := Arr(Split(v, ','));
      }
    }

    method ParseNVP(arg: string)
      modifies this
      ensures Abstract() == WithPair(old(Abstract()), arg)
    {
      var (n, v) := Cut(arg, '=');
      name := n;
      SetValue(v);
      phase := EndState;
    }

    method ParseInlineFormat(arg: string) returns (matched: bool)
      modifies this
      ensures matched == InlineFormat(arg)
      ensures Abstract() ==
              if matched then WithPair(old(Abstract()).(myType := VarTypes(Cut(arg, ',').0).value), Cut(arg, ',').1)
              else old(Abstract())
    {
      if InlineFormat(arg) {
        var (t, rest) := Cut(arg, ',');
        var (n, v) := Cut(rest, '=');
        myType := VarTypes(t).value;
        name := n;
        SetValue(v);
        phase := EndState;
        return true;
      }
      return false;
    }

    method NextArg(arg: string) returns (ok: bool)
      modifies this
      ensures ok == Next(old(Abstract()), arg).Some?
      ensures Abstract() == if ok then Next(old(Abstract()), arg).value else old(Abstract())
    {
      ok := true;
      match phase {
        case Initial =>
          var matched := ParseInlineFormat(arg);
          if matched {
            return;
          }
          if '=' in arg {
            ParseNVP(arg);
          } else if VarTypes(arg).Some? {
            myType := VarTypes(arg).value;
            phase := SawType;
          } else {
            ok := false;
          }
        case EndState =>
        case SawName =>
          SetValue(arg);
          phase := EndState;
        case SawType =>
          if '=' in arg {
            ParseNVP(arg);
          } else {
            name := arg;
            phase := SawName;
          }
      }
    }
  }

  // ---------- whole argument lists ----------

  /** The state after all arguments, stopping at the first error. */
  function After(s: State, args: seq<string>): Option<State>
    decreases args
  {
    if args == [] then Some(s)
    else match Next(s, args[0]) {
      case None => None
      case Some(next) => After(next, args[1..])
    }
  }

  lemma {:induction false} EndAbsorbs(s: State, args: seq<string>)
    requires s.phase.EndState?
    ensures After(s, args) == Some(s)
  {
    if args != [] {
      EndAbsorbs(s, args[1..]);
    }
  }

  /** A word for a type holds neither a comma nor an equals sign. */
  lemma TypeWords(word: string)
    requires VarTypes(word).Some?
    ensures ',' !in word && '=' !in word && !InlineFormat(word)
  {
  }

  /** What a complete spelling must lead to. */
  function Complete(t: VarType, name: string, value: string): State {
    State(name, ValueOf(t, value), t, EndState)
  }

  lemma ThreeArguments(word: string, name: string, value: string, more: seq<string>)
    requires VarTypes(word).Some? && '=' !in name
    ensures After(FRESH, [word, name, value] + more) == Some(Complete(VarTypes(word).value, name, value))
  {
    TypeWords(word);
    var args := [word, name, value] + more;
    assert args[1..] == [name, value] + more && args[1..][1..] == [value] + more && args[1..][1..][1..] == more;
    EndAbsorbs(Complete(VarTypes(word).value, name, value), more);
    var s1 := FRESH.(myType := VarTypes(word).value, phase := SawType);
    var s2 := s1.(name := name, phase := SawName);
    assert Next(FRESH, word) == Some(s1) && Next(s1, name) == Some(s2);
    assert After(s2, [value] + more) == After(Complete(VarTypes(word).value, name, value), more);
    assert After(s1, args[1..]) == After(s2, args[1..][1..]);
  }

  lemma TwoArguments(word: string, name: string, value: string, more: seq<string>)
    requires VarTypes(word).Some? && '=' !in name
    ensures After(FRESH, [word, name + "=" + value] + more) == Some(Complete(VarTypes(word).value, name, value))
  {
    TypeWords(word);
    CutAtFirst(name, '=', value);
    var arg := name + "=" + value;
    assert arg[|name|] == '=';
    var args := [word, arg] + more;
    assert args[1..] == [arg] + more && args[1..][1..] == more;
    EndAbsorbs(Complete(VarTypes(word).value, name, value), more);
    var s1 := FRESH.(myType := VarTypes(word).value, phase := SawType);
    assert Next(FRESH, word) == Some(s1);
  }

  /** When name=value has an inner equals sign: normally when neither half is empty. */
  predicate BothHalves(name: string, value: string) {
    if name == "" then exists j :: 0 <= j < |value| - 1 && value[j] == '='
    else value != ""
  }

  lemma InnerEqualsOfPair(name: string, value: string)
    requires '=' !in name
    ensures InnerEquals(name + "=" + value) <==> BothHalves(name, value)
  {
    var rest := name + "=" + value;
    if name == "" {
      assert rest == "=" + value;
      assert forall j :: 0 <= j < |value| ==> rest[1 + j] == value[j];
      if i :| 0 < i < |rest| - 1 && rest[i] == '=' {
        assert value[i - 1] == '=';
      }
      if j :| 0 <= j < |value| - 1 && value[j] == '=' {
        assert rest[j + 1] == '=';
      }
    } else {
      assert rest[|name|] == '=';
      if value == "" {
        assert forall i :: 0 <= i < |name| ==> rest[i] == name[i] && name[i] in name;
      }
    }
  }

  /** The one-argument spelling means the same as the others exactly when it is one line
      and has both halves; otherwise the type word becomes part of the name. */
  lemma OneArgument(word: string, name: string, value: string, more: seq<string>)
    requires VarTypes(word).Some? && '=' !in name
    ensures After(FRESH, [word + "," + name + "=" + value] + more) == Some(Complete(VarTypes(word).value, name, value))
            <==> '\n' !in name && '\n' !in value && BothHalves(name, value)
  {
    TypeWords(word);
    var rest := name + "=" + value;
    var arg := word + "," + name + "=" + value;
    assert arg == word + "," + rest;
    assert arg == (word + "," + name) + "=" + value;
    CutAtFirst(word, ',', rest);
    CutAtFirst(name, '=', value);
    CutAtFirst(word + "," + name, '=', value);
    InnerEqualsOfPair(name, value);
    assert arg[|word|] == ',' && '=' in rest && forall c :: c in rest ==> c in arg;
    assert OneLine(rest) <==> OneLine(name) && OneLine(value) by {
      assert forall c :: c in rest <==> c in name || c == '=' || c in value;
    }
    var args := [arg] + more;
    assert args[1..] == more;
    if InlineFormat(arg) {
      EndAbsorbs(Complete(VarTypes(word).value, name, value), more);
    } else {
      var s := WithPair(FRESH, arg);
      EndAbsorbs(s, more);
      assert |s.name| > |name|;
    }
  }

  /** All three spellings agree for names and values that are not empty. */
  lemma SpellingsAgree(word: string, name: string, value: string, more: seq<string>)
    requires VarTypes(word).Some? && '=' !in name
    requires name != "" && value != "" && '\n' !in name && '\n' !in value
    ensures After(FRESH, [word, name, value] + more) == Some(Complete(VarTypes(word).value, name, value))
    ensures After(FRESH, [word, name + "=" + value] + more) == After(FRESH, [word, name, value] + more)
    ensures After(FRESH, [word + "," + name + "=" + value] + more) == After(FRESH, [word, name, value] + more)
  {
    ThreeArguments(word, name, value, more);
    TwoArguments(word, name, value, more);
    OneArgument(word, name, value, more);
  }

  // ---------- the value ----------

  /** The text a value was made from. */
  function Source(v: Value, hadEquals: bool): string {
    match v
    case NoValue => ""
    case Str(text) => text
    case Arr(items) => Join(items, ",")
    case Map(k, rest) => k + if hadEquals then "=" + rest else ""
  }

  function TypeOf(v: Value): VarType {
    match v
    case Map(_, _) => MapType
    case Arr(_) => ArrayType
    case _ => StringType
  }

  /** setValue loses nothing of its argument, and its type can be read back. */
  lemma ValueKeepsText(t: VarType, value: string)
    ensures Source(ValueOf(t, value), '=' in value) == value
    ensures TypeOf(ValueOf(t, value)) == t
  {
    if t.ArrayType? {
      JoinOfSplit(value, ',');
    }
  }

  /** The array is the only list of comma-free elements that joins to the text, and it is
      never empty. */
  lemma ArrayElements(value: string, items: seq<string>)
    ensures ValueOf(ArrayType, value) == Arr(items) <==>
            items != [] && Join(items, ",") == value && forall s :: s in items ==> ',' !in s
  {
    JoinOfSplit(value, ',');
    if items != [] && Join(items, ",") == value && forall s :: s in items ==> ',' !in s {
      SplitOfJoin(items, ',');
    }
  }

  /** A map has one pair, cut at the first equals sign; without one, all of it is the key. */
  lemma MapPair(value: string, key: string, rest: string)
    ensures ValueOf(MapType, value) == Map(key, rest) <==>
            '=' !in key && (value == key + "=" + rest || (value == key && rest == ""))
  {
    if '=' !in key && value == key + "=" + rest {
      CutAtFirst(key, '=', rest);
      assert value[|key|] == '=';
    }
  }

  // ---------- type words and errors ----------

  /** The words for the types, written out. */
  lemma TypeWordsWrittenOut(word: string)
    ensures VarTypes(word) == Some(StringType) <==> word == "string" || word == "s" || word == "S"
    ensures VarTypes(word) == Some(ArrayType) <==> word == "array" || word == "a" || word == "A"
    ensures VarTypes(word) == Some(MapType) <==> word == "map" || word == "m" || word == "M"
  {
  }

  lemma {:induction false} NoErrorLater(s: State, args: seq<string>)
    requires !s.phase.Initial?
    ensures After(s, args).Some?
    decreases args
  {
    if args != [] {
      NoErrorLater(Next(s, args[0]).value, args[1..]);
    }
  }

  /** Only the first argument can be an error: one that is neither a pair nor a type word. */
  lemma OnlyFirstCanFail(args: seq<string>)
    ensures After(FRESH, args).None? <==> args != [] && '=' !in args[0] && VarTypes(args[0]).None?
  {
    if args != [] {
      var (word, rest) := Cut(args[0], ',');
      if InlineFormat(args[0]) {
        var i :| 0 < i < |rest| - 1 && rest[i] == '=';
        assert rest[i] in rest;
        assert args[0] == word + [','] + rest;
      }
      if Next(FRESH, args[0]).Some? {
        NoErrorLater(Next(FRESH, args[0]).value, args[1..]);
      }
    }
  }

  /** A pair without a type in front is a string. */
  lemma PairAlone(name: string, value: string, more: seq<string>)
    requires '=' !in name && !InlineFormat(name + "=" + value)
    ensures After(FRESH, [name + "=" + value] + more) == Some(State(name, Str(value), StringType, EndState))
  {
    CutAtFirst(name, '=', value);
    var arg := name + "=" + value;
    assert arg[|name|] == '=';
    var args := [arg] + more;
    assert args[1..] == more;
    EndAbsorbs(State(name, Str(value), StringType, EndState), more);
  }
}
