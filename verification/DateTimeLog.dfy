/** The line that prints a date and time, and its length against the message buffer. */
module DateTimeLog {
  import opened Numerals
  import opened Format
  import opened RawLog

  /** What stands before each of the seven numbers. */
  function DateLabels(): (labels: seq<string>)
    ensures |labels| == 7 && forall i :: 0 <= i < |labels| ==> '%' !in labels[i]
  {
    ["DateTime { seconds: ", ", minutes: ", ", hours: ", ", day_of_month: ", ", month: ", ", year: ", ", century: "]
  }

  /** Each label with a "%d" behind it, and a closing brace. */
  function FieldsFormat(labels: seq<string>): string {
    if labels == [] then " }" else labels[0] + "%d" + FieldsFormat(labels[1..])
  }

  function FieldsArgs(fields: seq<nat>): seq<Arg> {
    if fields == [] then [] else [IntArg(fields[0])] + FieldsArgs(fields[1..])
  }

  function FieldsText(labels: seq<string>, fields: seq<nat>): string
    requires |labels| == |fields|
  {
    if labels == [] then " }" else labels[0] + Dec(fields[0]) + FieldsText(labels[1..], fields[1..])
  }

  lemma {:induction false} FieldsExpand(labels: seq<string>, fields: seq<nat>)
    requires |labels| == |fields| && forall i :: 0 <= i < |labels| ==> '%' !in labels[i] && fields[i] < 256
    ensures Yields(FieldsFormat(labels), FieldsArgs(fields), FieldsText(labels, fields))
  {
    if labels == [] {
      YieldsPlain(" }");
    } else {
      FieldsExpand(labels[1..], fields[1..]);
      YieldsNext(labels[0], "%d", IntArg(fields[0]), FieldsFormat(labels[1..]), FieldsArgs(fields[1..]),
                 FieldsText(labels[1..], fields[1..]));
    }
  }

  function Characters(labels: seq<string>): nat {
    if labels == [] then 2 else |labels[0]| + Characters(labels[1..])
  }

  function DigitCount(n: nat): nat { if n < 10 then 1 else if n < 100 then 2 else 3 }

  function Digits(fields: seq<nat>): nat {
    if fields == [] then 0 else DigitCount(fields[0]) + Digits(fields[1..])
  }

  lemma DecDigits(n: nat)
    requires n < 256
    ensures |Dec(n)| == DigitCount(n)
  {
    if 10 <= n < 100 { assert DecNat(n / 10) == [Digit(n / 10)]; }
    if 100 <= n {
      assert DecNat(n / 10 / 10) == [Digit(n / 10 / 10)];
      assert |DecNat(n / 10)| == 2;
    }
  }

  lemma {:induction false} FieldsLength(labels: seq<string>, fields: seq<nat>)
    requires |labels| == |fields| && forall i :: 0 <= i < |fields| ==> fields[i] < 256
    ensures |FieldsText(labels, fields)| == Characters(labels) + Digits(fields)
  {
    if labels != [] {
      DecDigits(fields[0]);
      FieldsLength(labels[1..], fields[1..]);
    }
  }

  lemma {:induction false} TwoDigitFields(fields: seq<nat>)
    requires forall i :: 0 <= i < |fields| ==> fields[i] < 100
    ensures Digits(fields) <= 2 * |fields|
    ensures Digits(fields) == 2 * |fields| <==> forall i :: 0 <= i < |fields| ==> 10 <= fields[i]
  {
    if fields != [] { TwoDigitFields(fields[1..]); }
  }

  lemma CharactersFrom(labels: seq<string>, i: nat)
    requires i < |labels|
    ensures Characters(labels[i..]) == |labels[i]| + Characters(labels[i + 1..])
  {
    assert labels[i..][1..] == labels[i + 1..];
  }

  lemma LabelCharacters()
    ensures Characters(DateLabels()) == 86
  {
    var labels := DateLabels();
    forall i | 0 <= i < |labels| ensures Characters(labels[i..]) == |labels[i]| + Characters(labels[i + 1..]) {
      CharactersFrom(labels, i);
    }
    assert labels[0..] == labels && labels[7..] == [];
    assert |labels[0]| + |labels[1]| + |labels[2]| + |labels[3]| == 56;
    assert |labels[4]| + |labels[5]| + |labels[6]| == 28;
  }

  lemma FieldsFrom(labels: seq<string>, i: nat)
    requires i < |labels|
    ensures FieldsFormat(labels[i..]) == labels[i] + "%d" + FieldsFormat(labels[i + 1..])
  {
    assert labels[i..][1..] == labels[i + 1..];
  }

  lemma SevenFields(l: seq<string>)
    requires |l| == 7
    ensures FieldsFormat(l) == l[0] + "%d" + (l[1] + "%d" + (l[2] + "%d" + (l[3] + "%d" + (l[4] + "%d"
                               + (l[5] + "%d" + (l[6] + "%d" + " }"))))))
  {
    assert l[7..] == [] && l[0..] == l;
    forall i | 0 <= i < 7 ensures FieldsFormat(l[i..]) == l[i] + "%d" + FieldsFormat(l[i + 1..]) {
      FieldsFrom(l, i);
    }
  }

  lemma DatePieces()
    ensures var l := DateLabels();
            && l[0] + "%d" == "DateTime { seconds: %d" && l[1] + "%d" == ", minutes: %d" && l[2] + "%d" == ", hours: %d"
            && l[3] + "%d" == ", day_of_month: %d" && l[4] + "%d" == ", month: %d" && l[5] + "%d" == ", year: %d"
            && l[6] + "%d" + " }" == ", century: %d }"
  {
  }

  /** The format of the date line, written out. */
  lemma DateFormat()
    ensures FieldsFormat(DateLabels())
            == "DateTime { seconds: %d" + (", minutes: %d" + (", hours: %d" + (", day_of_month: %d" + (", month: %d"
               + (", year: %d" + ", century: %d }")))))
  {
    DatePieces();
    SevenFields(DateLabels());
  }

  /** The date line stays below the size of the message buffer exactly for fewer than 14 digits.  The fields of a date
      have at most two digits each: then it fills the buffer to its last character, and so loses the closing brace,
      exactly when all seven have two. */
  lemma DateTimeLine(fields: seq<nat>)
    requires |fields| == 7 && forall i :: 0 <= i < |fields| ==> fields[i] < 256
    ensures Yields(FieldsFormat(DateLabels()), FieldsArgs(fields), FieldsText(DateLabels(), fields))
    ensures |FieldsText(DateLabels(), fields)| == MESSAGE_SIZE - 14 + Digits(fields)
    ensures (forall i :: 0 <= i < |fields| ==> fields[i] < 100)
            ==> |FieldsText(DateLabels(), fields)| <= MESSAGE_SIZE
                && (|FieldsText(DateLabels(), fields)| == MESSAGE_SIZE <==> forall i :: 0 <= i < |fields| ==> 10 <= fields[i])
  {
    FieldsExpand(DateLabels(), fields);
    FieldsLength(DateLabels(), fields);
    LabelCharacters();
    if forall i :: 0 <= i < |fields| ==> fields[i] < 100 { TwoDigitFields(fields); }
  }
}
