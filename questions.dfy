/** The question record, the row validator `mapRowToQuestion`, the label
    canonicaliser `canon` and `structuredCloneQuestion`. */
module Questions {
  import opened Text
  import Csv

  datatype Option<T> = None | Some(value: T)

  /** The question type: multiple choice or true/false. */
  datatype Kind = MC | TF

  /** The answer columns of the sheet, F to I. */
  datatype Col = F | G | H | I

  datatype AnswerOption = AnswerOption(col: Col, text: string)

  datatype Question = Question(
    id: string,
    value: real,
    kind: Kind,
    answerCol: Col,
    text: string,
    options: seq<AnswerOption>,
    area: string,
    difficulty: string,
    elapsedCarryMs: real,   // time already spent on it before skips
    answered: bool)

  function KindName(k: Kind): string {
    match k
    case MC => "MC"
    case TF => "TF"
  }

  /** The type named by an upper-cased cell, if it is `MC` or `TF`. */
  function KindOf(s: string): (k: Option<Kind>)
    ensures k.Some? <==> s == "MC" || s == "TF"
    ensures k.Some? ==> KindName(k.value) == s
  {
    if s == "MC" then Some(MC) else if s == "TF" then Some(TF) else None
  }

  function ColName(c: Col): string {
    match c
    case F => "F"
    case G => "G"
    case H => "H"
    case I => "I"
  }

  /** The answer column named by an upper-cased cell, if it is F, G, H or I. */
  function ColOf(s: string): (c: Option<Col>)
    ensures c.Some? <==> s == "F" || s == "G" || s == "H" || s == "I"
    ensures c.Some? ==> ColName(c.value) == s
  {
    if s == "F" then Some(F) else if s == "G" then Some(G)
    else if s == "H" then Some(H) else if s == "I" then Some(I) else None
  }

  /** The type check ignores case: exactly the four spellings of MC, and of
      TF, name a type. */
  lemma KindSpellings(s: string)
    ensures KindOf(ToUpper(s)) == Some(MC) <==> s in {"MC", "Mc", "mC", "mc"}
    ensures KindOf(ToUpper(s)) == Some(TF) <==> s in {"TF", "Tf", "tF", "tf"}
  {
    ToUpperMatches(s, "MC");
    ToUpperMatches(s, "TF");
    if |s| == 2 {
      assert s == [s[0], s[1]];
    }
  }

  /** The answer check ignores case: F, G and H in either case, and I as
      `I`, `i` or the dotless i, name a column. */
  lemma ColSpellings(s: string)
    ensures ColOf(ToUpper(s)) == Some(F) <==> s in {"F", "f"}
    ensures ColOf(ToUpper(s)) == Some(G) <==> s in {"G", "g"}
    ensures ColOf(ToUpper(s)) == Some(H) <==> s in {"H", "h"}
    ensures ColOf(ToUpper(s)) == Some(I) <==> s in {"I", "i", "\U{131}"}
  {
    ToUpperMatches(s, "F");
    ToUpperMatches(s, "G");
    ToUpperMatches(s, "H");
    ToUpperMatches(s, "I");
    if |s| == 1 {
      assert s == [s[0]];
    }
  }

  /** The header row is recognised by its id `questid` in any case. */
  lemma HeaderSpellings(qid: string)
    ensures ToLower(qid) == "questid" <==> |qid| == 7 && forall i :: 0 <= i < 7 ==> qid[i] == "questid"[i] || qid[i] == "QUESTID"[i]
  {
    ToLowerMatches(qid, "questid");
  }

  /** The cell in column `k`, empty when the row is shorter. */
  function Cell(row: seq<string>, k: nat): string {
    if k < |row| then row[k] else ""
  }

  /** The string itself, or `fallback` when it is empty. */
  function OrDefault(s: string, fallback: string): string {
    if s == "" then fallback else s
  }

  /** The checks of `mapRowToQuestion`: an id that is not the header's
      `questid`, a prompt, a known type and an answer column F..I. */
  predicate AcceptsRow(row: seq<string>) {
    var qid := Trim(Cell(row, 0));
    qid != "" && ToLower(qid) != "questid"
    && Trim(Cell(row, 4)) != ""
    && KindOf(ToUpper(Trim(Cell(row, 2)))).Some?
    && ColOf(ToUpper(Trim(Cell(row, 3)))).Some?
  }

  /** The columns of the options, in order. */
  function ColAt(j: nat): Col {
    if j == 0 then F else if j == 1 then G else if j == 2 then H else I
  }

  /** The four option cells F..I trimmed, of which a true/false question keeps
      the first two. */
  function OptionsFor(row: seq<string>, kind: Kind): (r: seq<AnswerOption>)
    ensures |r| == (if kind == MC then 4 else 2)
    ensures forall j :: 0 <= j < |r| ==> r[j].col == ColAt(j) && r[j].text == Trim(Cell(row, 5 + j))
  {
    var n := if kind == MC then 4 else 2;
    seq(n, j requires 0 <= j < n => AnswerOption(ColAt(j), Trim(Cell(row, 5 + j))))
  }

  /** `mapRowToQuestion(row)`. `number` stands for the numeric reading of the
      value cell after its first comma became a point, zero when that is
      not a number. */
  function MapRowToQuestion(row: seq<string>, number: string -> real): (r: Option<Question>)
    ensures r.Some? <==> AcceptsRow(row)
    ensures r.Some? ==> var q := r.value;
      && q.id == Trim(Cell(row, 0)) && q.id != ""
      && q.text == Trim(Cell(row, 4)) && q.text != ""
      && KindName(q.kind) == ToUpper(Trim(Cell(row, 2)))
      && ColName(q.answerCol) == ToUpper(Trim(Cell(row, 3)))
      && q.value == number(ReplaceFirst(Cell(row, 1), ',', '.'))
      && |q.options| == (if q.kind == MC then 4 else 2)
      && (forall j :: 0 <= j < |q.options| ==> q.options[j].text == Trim(Cell(row, 5 + j)))
      && q.area == (if Trim(Cell(row, 9)) == "" then "Unknown" else Trim(Cell(row, 9)))
      && q.difficulty == (if Trim(Cell(row, 10)) == "" then "Medium" else Trim(Cell(row, 10)))
      && q.area != "" && q.difficulty != ""
      && q.elapsedCarryMs == 0.0 && !q.answered
  {
    if !AcceptsRow(row) then None
    else
      var kind := KindOf(ToUpper(Trim(Cell(row, 2)))).value;
      var answer := ColOf(ToUpper(Trim(Cell(row, 3)))).value;
      Some(Question(
        id := Trim(Cell(row, 0)),
        value := number(ReplaceFirst(Cell(row, 1), ',', '.')),
        kind := kind,
        answerCol := answer,
        text := Trim(Cell(row, 4)),
        options := OptionsFor(row, kind),
        area := OrDefault(Trim(Cell(row, 9)), "Unknown"),
        difficulty := OrDefault(Trim(Cell(row, 10)), "Medium"),
        elapsedCarryMs := 0.0,
        answered := false))
  }

  predicate HasOption(q: Question, c: Col) {
    exists j :: 0 <= j < |q.options| && q.options[j].col == c
  }

  /** The option columns of an accepted question are F, G, H, I in that order
      (F and G for true/false), so a multiple-choice answer always names one of
      its options. */
  lemma AcceptedColumns(row: seq<string>, number: string -> real)
    requires MapRowToQuestion(row, number).Some?
    ensures var q := MapRowToQuestion(row, number).value;
      && q.options[0].col == F && q.options[1].col == G
      && (q.kind == MC ==> q.options[2].col == H && q.options[3].col == I && HasOption(q, q.answerCol))
  {
    var q := MapRowToQuestion(row, number).value;
    if q.kind == MC {
      match q.answerCol
      case F => assert q.options[0].col == F;
      case G => assert q.options[1].col == G;
      case H => assert q.options[2].col == H;
      case I => assert q.options[3].col == I;
    }
  }

  /** A true/false question keeps only the options F and G. */
  lemma TrueFalseColumns(row: seq<string>, number: string -> real)
    requires MapRowToQuestion(row, number).Some? && MapRowToQuestion(row, number).value.kind == TF
    ensures !HasOption(MapRowToQuestion(row, number).value, H)
    ensures !HasOption(MapRowToQuestion(row, number).value, I)
  {
    var q := MapRowToQuestion(row, number).value;
    assert forall j :: 0 <= j < |q.options| ==> q.options[j].col == ColAt(j);
  }

  /** A true/false row whose answer column is H. */
  const TF_ROW_ANSWER_H: seq<string> := ["q1", "10", "TF", "H", "Is it?", "Yes", "No", "", "", "Civs", "Easy"]

  lemma TrueFalseRowAccepted()
    ensures AcceptsRow(TF_ROW_ANSWER_H)
    ensures ToUpper(Trim(Cell(TF_ROW_ANSWER_H, 2))) == "TF" && ToUpper(Trim(Cell(TF_ROW_ANSWER_H, 3))) == "H"
  {
    var row := TF_ROW_ANSWER_H;
    assert Cell(row, 0) == "q1" && Cell(row, 2) == "TF" && Cell(row, 3) == "H" && Cell(row, 4) == "Is it?";
    TrimOfClean("q1");
    TrimOfClean("TF");
    TrimOfClean("H");
    TrimOfClean("Is it?");
    assert ToUpper("TF") == "TF";
    assert ToUpper("H") == "H";
    assert ToLower("q1") != "questid" by { assert ToLower("q1")[0] == 'q'; }
  }

  /** That row is accepted although H is not among the two options it keeps:
      such a question can never be answered right. */
  lemma TrueFalseAnswerOutsideOptions(number: string -> real)
    ensures MapRowToQuestion(TF_ROW_ANSWER_H, number).Some?
    ensures MapRowToQuestion(TF_ROW_ANSWER_H, number).value.answerCol == H
    ensures !HasOption(MapRowToQuestion(TF_ROW_ANSWER_H, number).value, H)
  {
    TrueFalseRowAccepted();
    var q := MapRowToQuestion(TF_ROW_ANSWER_H, number).value;
    assert KindName(q.kind) == "TF" && ColName(q.answerCol) == "H";
    TrueFalseColumns(TF_ROW_ANSWER_H, number);
  }

  /** The loop of `loadQuestions` over the parsed rows: the header row is
      skipped and every row the validator accepts becomes a question. When
      `parseCSV` found no line it returned `[]`, whose `rows` is undefined,
      and reading its length throws: that is `None` here. */
  method CollectQuestions(parsed: Csv.ParsedCsv, number: string -> real) returns (r: Option<seq<Question>>)
    ensures r.None? <==> parsed.NoLines?
    ensures r.Some? ==> r.value == Accepted(DataRows(parsed.rows), number)
  {
    if parsed.NoLines? {
      return None;
    }
    var rows := parsed.rows;
    var questions: seq<Question> := [];
    var i := 1;
    while i < |rows|
      invariant 1 <= i
      invariant questions + Accepted(Suffix(rows, i), number) == Accepted(DataRows(rows), number)
    {
      var q := MapRowToQuestion(rows[i], number);
      AcceptedStep(rows, i, number, questions);
      if q.Some? {
        questions := questions + [q.value];
      }
      i := i + 1;
    }
    r := Some(questions);
  }

  /** One turn of the loop of `CollectQuestions`: row `i` contributes its
      question, if it has one, ahead of the rows after it. */
  lemma AcceptedStep(rows: seq<seq<string>>, i: nat, number: string -> real, questions: seq<Question>)
    requires 1 <= i < |rows|
    requires questions + Accepted(Suffix(rows, i), number) == Accepted(DataRows(rows), number)
    ensures var q := MapRowToQuestion(rows[i], number);
      (if q.Some? then questions + [q.value] else questions) + Accepted(Suffix(rows, i + 1), number)
        == Accepted(DataRows(rows), number)
  {
    var q := MapRowToQuestion(rows[i], number);
    var rest := Accepted(Suffix(rows, i + 1), number);
    assert Suffix(rows, i)[0] == rows[i] && Suffix(rows, i)[1..] == Suffix(rows, i + 1);
    if q.Some? {
      assert Accepted(Suffix(rows, i), number) == [q.value] + rest;
      AppendAssoc(questions, [q.value], rest);
    }
  }

  lemma AppendAssoc<T>(a: seq<T>, b: seq<T>, c: seq<T>)
    ensures a + b + c == a + (b + c)
  {
  }

  /** `rows[k..]`, empty when there are fewer than `k` rows. */
  function Suffix(rows: seq<seq<string>>, k: nat): seq<seq<string>> {
    if k <= |rows| then rows[k..] else []
  }

  /** The rows after the header. */
  function DataRows(rows: seq<seq<string>>): seq<seq<string>> {
    Suffix(rows, 1)
  }

  /** The questions the validator accepts from `rows`, in order. */
  function Accepted(rows: seq<seq<string>>, number: string -> real): (qs: seq<Question>)
    ensures |qs| <= |rows|
    ensures forall q :: q in qs ==> q.id != "" && q.text != "" && q.elapsedCarryMs == 0.0
  {
    if rows == [] then []
    else
      var rest := Accepted(rows[1..], number);
      match MapRowToQuestion(rows[0], number)
      case Some(q) => [q] + rest
      case None => rest
  }

  // ---------------------------------------------------------------------------
  // Canonical labels.

  /** The `canon` table of `buildQuizSet`: lower-case key to canonical label. */
  function CanonTable(key: string): Option<string> {
    if key == "mechanics" then Some("Mechanics")
    else if key == "units" then Some("Units")
    else if key == "civs" then Some("Civs")
    else if key == "strategy" then Some("Strategy")
    else if key == "easy" then Some("Easy")
    else if key == "medium" then Some("Medium")
    else if key == "hard" then Some("Hard")
    else if key == "elite" then Some("Elite")
    else None
  }

  /** `canon(s)`: the canonical label when the trimmed, lower-cased string is
      a known one, the trimmed string otherwise. */
  function Canon(s: string): string {
    var t := Trim(s);
    match CanonTable(ToLower(t))
    case Some(name) => name
    case None => t
  }

  /** Canonical labels are fixed points of `canon`, whatever their case was. */
  lemma CanonIdempotent(s: string)
    ensures Canon(Canon(s)) == Canon(s)
  {
    var t := Trim(s);
    TrimIdempotent(s);
    match CanonTable(ToLower(t))
    case Some(name) =>
      CanonLabel(name, ToLower(t));
    case None =>
  }

  lemma CanonLabel(name: string, key: string)
    requires CanonTable(key) == Some(name)
    ensures Trim(name) == name && CanonTable(ToLower(name)) == Some(name)
  {
    TrimOfClean(name);
    assert ToLower(name) == key;
  }

  /** `canon("eLiTe ")` is `Elite`; an unknown label passes through trimmed. */
  lemma CanonExamples()
    ensures Canon(" eLiTe ") == "Elite"
    ensures Canon("Naval") == "Naval"
  {
    assert Trim(" eLiTe ") == "eLiTe" by {
      assert " eLiTe "[1..] == "eLiTe ";
      assert TrimStart(" eLiTe ") == "eLiTe ";
      assert "eLiTe "[..5] == "eLiTe";
      assert TrimEnd("eLiTe ") == "eLiTe";
    }
    assert ToLower("eLiTe") == "elite";
    TrimOfClean("Naval");
    assert ToLower("Naval") == "naval";
  }

  /** The pool entry of `buildQuizSet`: area and difficulty canonicalised. */
  function Canonicalize(q: Question): Question {
    q.(area := Canon(q.area), difficulty := Canon(q.difficulty))
  }

  /** `structuredCloneQuestion(q)`: the same question with the runtime fields
      reset. */
  function Clone(q: Question): Question {
    q.(elapsedCarryMs := 0.0, answered := false)
  }
}
