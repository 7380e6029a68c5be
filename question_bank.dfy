/** The question bank: validation of an admin's fields, the table kept in id
    order, the row operations of add, update and delete, and the seed rows. */
module QuestionBank {
  import opened QuizTypes

  /** The four option labels a correct answer may name. */
  predicate IsOptionLabel(s: string) {
    s == "a" || s == "b" || s == "c" || s == "d"
  }

  /** Lower-casing of one character (ASCII letters only). */
  function LowerChar(c: char): char {
    if 'A' <= c <= 'Z' then (c as int + 32) as char else c
  }

  /** Lower-casing of a string, character by character. */
  function Lower(s: string): (r: string)
    ensures |r| == |s|
    ensures forall i :: 0 <= i < |s| ==> r[i] == LowerChar(s[i])
  {
    if s == [] then [] else [LowerChar(s[0])] + Lower(s[1..])
  }

  /** No field is absent or empty. */
  predicate AllPresent(f: QuestionFields) {
    f.text != [] && f.optionA != [] && f.optionB != [] && f.optionC != [] && f.optionD != []
    && f.correctAnswer != []
  }

  /** The check shared by add and update: first every field must be present,
      then the lower-cased correct answer must be an option label; what is
      stored is the fields with that lower-cased answer. */
  function Validate(f: QuestionFields): (r: Result<QuestionFields>)
    ensures r.Err? ==> r.failure == MissingFields || r.failure == BadCorrectAnswer
    ensures r == Err(MissingFields) <==> !AllPresent(f)
    ensures r.Ok? ==> AllPresent(r.value) && IsOptionLabel(r.value.correctAnswer)
    ensures r.Ok? ==> r.value.(correctAnswer := f.correctAnswer) == f
  {
    if !AllPresent(f) then Err(MissingFields)
    else if !IsOptionLabel(Lower(f.correctAnswer)) then Err(BadCorrectAnswer)
    else Ok(f.(correctAnswer := Lower(f.correctAnswer)))
  }

  /** The lower-cased string is an option label exactly when the string is one
      of the eight one-letter strings a, b, c, d, A, B, C, D. */
  lemma LowerIsLabel(s: string)
    ensures IsOptionLabel(Lower(s)) <==> s in {"a", "b", "c", "d", "A", "B", "C", "D"}
  {
    if |s| == 1 {
      assert Lower(s) == [LowerChar(s[0])];
      assert s == [s[0]];
    } else {
      assert |Lower(s)| != 1;
    }
  }

  /** Validation accepts exactly the complete field sets whose correct answer is
      a single letter a..d in either case, and stores it in lower case. */
  lemma ValidateAcceptsExactly(f: QuestionFields)
    ensures Validate(f).Ok? <==>
              AllPresent(f) && f.correctAnswer in {"a", "b", "c", "d", "A", "B", "C", "D"}
    ensures Validate(f).Ok? ==> Validate(f).value.correctAnswer == Lower(f.correctAnswer)
  {
    LowerIsLabel(f.correctAnswer);
  }

  /** Validating what validation stored changes nothing: stored rows pass again unchanged. */
  lemma ValidateIdempotent(f: QuestionFields)
    requires Validate(f).Ok?
    ensures Validate(Validate(f).value) == Validate(f)
  {
  }

  /** A stored question: complete fields and a lower-case option label. */
  predicate WellFormed(q: Question) {
    AllPresent(q.fields) && IsOptionLabel(q.fields.correctAnswer)
  }

  /** The table is in strictly ascending id order (so ids are distinct). */
  predicate Sorted(qs: seq<Question>) {
    forall i, j :: 0 <= i < j < |qs| ==> qs[i].id < qs[j].id
  }

  /** The invariant of the table: rows in id order, every id issued by the
      AUTOINCREMENT counter `lastId`, every row well formed. */
  predicate BankOk(qs: seq<Question>, lastId: nat) {
    Sorted(qs)
    && (forall i :: 0 <= i < |qs| ==> 1 <= qs[i].id <= lastId)
    && (forall i :: 0 <= i < |qs| ==> WellFormed(qs[i]))
  }

  /** Some row has id `id`. */
  predicate HasQuestion(qs: seq<Question>, id: QuestionId) {
    exists i :: 0 <= i < |qs| && qs[i].id == id
  }

  /** The row add appends: the next AUTOINCREMENT id keeps the table in order. */
  lemma AppendKeepsBank(qs: seq<Question>, lastId: nat, f: QuestionFields)
    requires BankOk(qs, lastId)
    requires Validate(f).Ok?
    ensures BankOk(qs + [Question(lastId + 1, Validate(f).value)], lastId + 1)
    ensures !HasQuestion(qs, lastId + 1)
  {
  }

  /** UPDATE ... WHERE id: the row with id `id` gets the new fields, every other
      row and every id stays as it was. */
  function Replace(qs: seq<Question>, id: QuestionId, f: QuestionFields): (r: seq<Question>)
    ensures |r| == |qs|
    ensures forall i :: 0 <= i < |qs| ==> r[i].id == qs[i].id
    ensures forall i :: 0 <= i < |qs| && qs[i].id != id ==> r[i] == qs[i]
    ensures forall i :: 0 <= i < |qs| && qs[i].id == id ==> r[i].fields == f
  {
    if qs == [] then []
    else [if qs[0].id == id then Question(id, f) else qs[0]] + Replace(qs[1..], id, f)
  }

  /** Updating with validated fields keeps the table invariant. */
  lemma ReplaceKeepsBank(qs: seq<Question>, lastId: nat, id: QuestionId, f: QuestionFields)
    requires BankOk(qs, lastId)
    requires Validate(f).Ok?
    ensures BankOk(Replace(qs, id, Validate(f).value), lastId)
  {
  }

  /** DELETE ... WHERE id: every row with id `id` goes, the others stay in order. */
  function Remove(qs: seq<Question>, id: QuestionId): (r: seq<Question>)
    ensures forall q :: q in r <==> q in qs && q.id != id
    ensures |r| <= |qs|
  {
    if qs == [] then []
    else (if qs[0].id == id then [] else [qs[0]]) + Remove(qs[1..], id)
  }

  /** Deleting keeps the remaining rows in order. */
  lemma {:induction false} RemoveKeepsOrder(qs: seq<Question>, id: QuestionId)
    requires Sorted(qs)
    ensures Sorted(Remove(qs, id))
    decreases |qs|
  {
    if qs != [] {
      var tail := qs[1..];
      RemoveKeepsOrder(tail, id);
      var rt := Remove(tail, id);
      if qs[0].id != id {
        var r := Remove(qs, id);
        assert r == [qs[0]] + rt;
        forall i, j | 0 <= i < j < |r| ensures r[i].id < r[j].id {
          if i == 0 {
            assert r[j] in tail;
          } else {
            assert r[i] == rt[i - 1] && r[j] == rt[j - 1];
          }
        }
      }
    }
  }

  /** On an ordered table, deleting removes exactly one row when the id is
      present and none otherwise. */
  lemma {:induction false} RemoveCount(qs: seq<Question>, id: QuestionId)
    requires Sorted(qs)
    ensures !HasQuestion(Remove(qs, id), id)
    ensures |Remove(qs, id)| == if HasQuestion(qs, id) then |qs| - 1 else |qs|
    decreases |qs|
  {
    if qs != [] {
      var tail := qs[1..];
      RemoveCount(tail, id);
      if qs[0].id == id {
        assert !HasQuestion(tail, id) by {
          forall j | 0 <= j < |tail| ensures tail[j].id != id {
            assert qs[j + 1] == tail[j];
          }
        }
      } else {
        assert HasQuestion(qs, id) <==> HasQuestion(tail, id) by {
          if HasQuestion(qs, id) {
            var j :| 0 <= j < |qs| && qs[j].id == id;
            assert tail[j - 1].id == id;
          }
          if HasQuestion(tail, id) {
            var j :| 0 <= j < |tail| && tail[j].id == id;
            assert qs[j + 1].id == id;
          }
        }
      }
    }
  }

  /** Deleting from a well-formed table keeps its invariant. */
  lemma RemoveKeepsBank(qs: seq<Question>, lastId: nat, id: QuestionId)
    requires BankOk(qs, lastId)
    ensures BankOk(Remove(qs, id), lastId)
  {
    RemoveKeepsOrder(qs, id);
    var r := Remove(qs, id);
    forall i | 0 <= i < |r| ensures 1 <= r[i].id <= lastId && WellFormed(r[i]) {
      assert r[i] in qs;
    }
  }

  /** The five questions inserted into an empty table at start-up, with the
      ids the AUTOINCREMENT counter hands out after `lastId`. */
  function SeedQuestions(lastId: nat): (r: seq<Question>)
    ensures |r| == 5
    ensures BankOk(r, lastId + 5)
    ensures forall i :: 0 <= i < 5 ==> r[i].id == lastId + 1 + i
  {
    [ Question(lastId + 1, QuestionFields("What is the capital of France?",
        "London", "Berlin", "Paris", "Madrid", "c")),
      Question(lastId + 2, QuestionFields("Which programming language is known as the 'mother of all languages'?",
        "C", "Assembly", "FORTRAN", "COBOL", "a")),
      Question(lastId + 3, QuestionFields("What does HTML stand for?",
        "Hyper Text Markup Language", "High Tech Modern Language",
        "Home Tool Markup Language", "Hyperlink and Text Markup Language", "a")),
      Question(lastId + 4, QuestionFields("Which planet is known as the Red Planet?",
        "Venus", "Mars", "Jupiter", "Saturn", "b")),
      Question(lastId + 5, QuestionFields("What is the largest ocean on Earth?",
        "Atlantic Ocean", "Indian Ocean", "Arctic Ocean", "Pacific Ocean", "d")) ]
  }

  /** The question as the quiz page sends it, without its correct option. */
  function Public(q: Question): PublicQuestion {
    PublicQuestion(q.id, q.fields.text, q.fields.optionA, q.fields.optionB, q.fields.optionC, q.fields.optionD)
  }

  /** The whole table as the quiz page sends it. */
  function PublicList(qs: seq<Question>): (r: seq<PublicQuestion>)
    ensures |r| == |qs|
    ensures forall i :: 0 <= i < |qs| ==> r[i] == Public(qs[i])
  {
    seq(|qs|, i requires 0 <= i < |qs| => Public(qs[i]))
  }
}
