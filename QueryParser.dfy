/**
 * `extract_operator`: a size query such as "> 2M" is split into its
 * comparison operator and the byte count it is compared against.
 */
module QueryParser {
  import opened Wrappers
  import opened Strings
  import opened Numbers
  import opened Units

  /** The comparison operators, in the order the query is searched for them. */
  const Operators: seq<string> := ["==", "<=", "<", ">=", ">"]

  /** The characters operators are made of. */
  predicate IsOperatorChar(c: char) {
    c == '=' || c == '<' || c == '>'
  }

  /** Why a query could not be read. */
  datatype QueryError =
    | NoOperator          // no operator occurs, so none is ever bound
    | BadSize(SizeError)  // the text after the operator is not a size

  /** The first operator, in precedence order, that occurs anywhere in `s`. */
  function ChooseOperator(s: string): (r: Option<string>)
    ensures r.Some? ==> r.value in Operators && Contains(s, r.value)
  {
    if Contains(s, "==") then Some("==")
    else if Contains(s, "<=") then Some("<=")
    else if Contains(s, "<") then Some("<")
    else if Contains(s, ">=") then Some(">=")
    else if Contains(s, ">") then Some(">")
    else None
  }

  /**
   * `extract_operator`: the chosen operator, and the size written after its
   * last occurrence (a number, then one unit letter).
   */
  function ExtractOperator(s: string): (r: Result<(string, nat), QueryError>)
    ensures r.Success? ==> ChooseOperator(s) == Some(r.value.0)
    ensures r.Success? ==> ParseSize(LastPiece(s, r.value.0)) == Success(r.value.1)
    ensures r == Failure(NoOperator) <==> ChooseOperator(s).None?
    ensures ChooseOperator(s).Some? ==>
      (r.Success? <==> ParseSize(LastPiece(s, ChooseOperator(s).value)).Success?)
    ensures ChooseOperator(s).Some? && r.Failure? ==>
      r == Failure(BadSize(ParseSize(LastPiece(s, ChooseOperator(s).value)).error))
  {
    match ChooseOperator(s)
    case None => Failure(NoOperator)
    case Some(op) =>
      match ParseSize(LastPiece(s, op))
      case Failure(e) => Failure(BadSize(e))
      case Success(bytes) => Success((op, bytes))
  }

  /**
   * The operator chosen is the one at position `k` of the precedence order
   * exactly when it occurs and none before it does.
   */
  lemma ChooseOperatorPrecedence(s: string, k: int)
    requires 0 <= k < |Operators|
    ensures ChooseOperator(s) == Some(Operators[k]) <==>
      Contains(s, Operators[k]) && forall j :: 0 <= j < k ==> !Contains(s, Operators[j])
    ensures ChooseOperator(s).None? <==> forall j :: 0 <= j < |Operators| ==> !Contains(s, Operators[j])
  {
  }

  /**
   * No operator is found exactly when the query has no `<`, no `>` and no
   * two `=` in a row; a single `=` on its own is not an operator.
   */
  lemma ChooseOperatorNone(s: string)
    ensures ChooseOperator(s).None? <==> '<' !in s && '>' !in s && !Contains(s, "==")
  {
    ContainsChar(s, '<');
    ContainsChar(s, '>');
    if Contains(s, "<=") {
      var i :| 0 <= i <= |s| - 2 && MatchAt(s, "<=", i);
      assert s[i] == "<="[0];
    }
    if Contains(s, ">=") {
      var i :| 0 <= i <= |s| - 2 && MatchAt(s, ">=", i);
      assert s[i] == ">="[0];
    }
  }

  /**
   * Appending text free of operator characters to a string of operator
   * characters adds no occurrence of an operator.
   */
  lemma ContainsOperatorPrefix(op: string, t: string, x: string)
    requires |x| > 0 && forall i :: 0 <= i < |x| ==> IsOperatorChar(x[i])
    requires forall i :: 0 <= i < |t| ==> !IsOperatorChar(t[i])
    ensures Contains(op + t, x) <==> Contains(op, x)
  {
    var s := op + t;
    if Contains(s, x) {
      var i :| 0 <= i <= |s| - |x| && MatchAt(s, x, i);
      var e := i + |x| - 1;
      assert s[e] == x[|x| - 1];
      assert e < |op|;
      assert op[i..i + |x|] == s[i..i + |x|];
      assert MatchAt(op, x, i);
    }
    if Contains(op, x) {
      var i :| 0 <= i <= |op| - |x| && MatchAt(op, x, i);
      assert s[i..i + |x|] == op[i..i + |x|];
      assert MatchAt(s, x, i);
    }
  }

  /** Each operator, standing alone, is chosen for itself. */
  lemma ChooseOperatorAlone(k: int)
    requires 0 <= k < |Operators|
    ensures ChooseOperator(Operators[k]) == Some(Operators[k])
  {
    var op := Operators[k];
    assert MatchAt(op, op, 0);
    if k == 1 {
      assert !MatchAt("<=", "==", 0);
    } else if k == 3 {
      assert !MatchAt(">=", "==", 0) && !MatchAt(">=", "<=", 0);
      assert !MatchAt(">=", "<", 0) && !MatchAt(">=", "<", 1);
    } else if k == 4 {
      assert !MatchAt(">", "<", 0);
    }
  }

  /**
   * The text after the operator at the head of `op + t`, when `t` holds no
   * operator character, is all of `t`.
   */
  lemma LastPieceAfterOperator(op: string, t: string)
    requires |op| > 0 && forall i :: 0 <= i < |op| ==> IsOperatorChar(op[i])
    requires forall i :: 0 <= i < |t| ==> !IsOperatorChar(t[i])
    ensures LastPiece(op + t, op) == t
  {
    var s := op + t;
    var p := LastPieceStart(s, op, 0, 0);
    LastPieceStartShape(s, op, 0, 0);
    assert s[..|op|] == op;
    assert MatchAt(s, op, 0);
    assert p > 0;
    var m := p - |op|;
    assert MatchAt(s, op, m);
    assert s[p - 1] == op[|op| - 1];
    assert p == |op|;
    assert LastPiece(s, op) == s[p..];
    assert s[|op|..] == t;
  }

  /**
   * A query made of an operator and then text with no operator character
   * chooses that operator, and the text is what is read as the size.
   */
  lemma OperatorThenText(k: int, t: string)
    requires 0 <= k < |Operators|
    requires forall i :: 0 <= i < |t| ==> !IsOperatorChar(t[i])
    ensures ChooseOperator(Operators[k] + t) == Some(Operators[k])
    ensures LastPiece(Operators[k] + t, Operators[k]) == t
  {
    var op := Operators[k];
    forall x | x in Operators ensures Contains(op + t, x) <==> Contains(op, x) {
      ContainsOperatorPrefix(op, t, x);
    }
    ChooseOperatorAlone(k);
    LastPieceAfterOperator(op, t);
  }

  /**
   * An operator followed by a number and a unit letter is read back as that
   * operator and the number of bytes the size denotes.
   */
  lemma ExtractOperatorRoundTrip(k: int, d: string, u: char)
    requires 0 <= k < |Operators|
    requires ParseDecimal(d).Some? && Capitalize(u) in UnitsDict
    ensures ExtractOperator(Operators[k] + (d + [u]))
      == Success((Operators[k], ParseDecimal(d).value * UnitsDict[Capitalize(u)]))
  {
    var t := d + [u];
    ParseDecimalChars(d);
    forall i | 0 <= i < |t| ensures !IsOperatorChar(t[i]) {
      if i < |d| {
        assert t[i] == d[i];
      }
    }
    OperatorThenText(k, t);
    assert DropLast(t) == d;
  }

  /** The worked case from the documentation: "> 2M" is (">", 2000000). */
  lemma ExtractOperatorExample()
    ensures ExtractOperator("> 2M") == Success((">", 2000000))
  {
    assert Strip(" 2") == "2" by {
      assert LeadingSpaces(" 2") == 1 by { assert " 2"[1..] == "2"; }
      assert " 2"[1..] == "2";
    }
    assert DigitsValue("2") == 2 by { assert "2"[..0] == ""; }
    ExtractOperatorRoundTrip(4, " 2", 'M');
    assert ">" + (" 2" + ['M']) == "> 2M";
  }

  /** Queries with no operator: "2M", and "=2M", whose single `=` is not one. */
  lemma ExtractOperatorNoOperator()
    ensures ExtractOperator("2M") == Failure(NoOperator)
    ensures ExtractOperator("=2M") == Failure(NoOperator)
  {
    ChooseOperatorNone("2M");
    assert !Contains("2M", "==") by {
      assert !MatchAt("2M", "==", 0) by { assert "2M"[0] != '='; }
    }
    ChooseOperatorNone("=2M");
    assert !Contains("=2M", "==") by {
      assert "=2M"[0..2] == "=2" && "=2"[1] != "=="[1];
      assert "=2M"[1..3] == "2M" && "2M"[0] != "=="[0];
    }
  }

  /** ">2T" names an unknown unit. */
  lemma ExtractOperatorUnknownUnit()
    ensures ExtractOperator(">2T") == Failure(BadSize(UnknownUnit))
  {
    var t, q := "2T", ">2T";
    assert q == Operators[4] + t;
    assert !IsOperatorChar(t[0]) && !IsOperatorChar(t[1]);
    OperatorThenText(4, t);
    assert ParseSize(t) == Failure(UnknownUnit) by {
      ParseDigits("2");
      ParseSizeOf("2", 'T');
      assert "2" + ['T'] == t;
    }
  }

  /** "<" has nothing after the operator, so no number. */
  lemma ExtractOperatorNoNumber()
    ensures ExtractOperator("<") == Failure(BadSize(BadNumber))
  {
    OperatorThenText(2, "");
    assert "<" + "" == "<";
    assert DropLast("") == "";
    assert Strip("") == "";
  }
}
