/** The ledger-transfer projection: six members, their canonical bytes and six display rows. */
module LedgerTransfer {
  import opened Prelude
  import opened Json
  import opened Receipt
  import opened Projections

  datatype Transfer = Transfer(amount: string, fromAccount: string, ledger: string, salt: string, toAccount: string,
                               unit: string)

  predicate AmountOk(s: string) {
    0 < |s| <= 15 && s[0] != '0' && forall i | 0 <= i < |s| :: Digit(s[i])
  }

  predicate IdentifierOk(s: string) {
    && 0 < |s| <= 64
    && Lower(s[0]) && (Lower(s[|s| - 1]) || Digit(s[|s| - 1]))
    && forall i | 0 <= i < |s| :: Lower(s[i]) || Digit(s[i]) || s[i] == '-'
  }

  predicate TransferOk(t: Transfer) {
    && AmountOk(t.amount) && IdentifierOk(t.fromAccount) && IdentifierOk(t.ledger) && HexOk(t.salt, 32)
    && IdentifierOk(t.toAccount) && t.unit == "XTS" && t.fromAccount != t.toAccount
  }

  function TransferValue(t: Transfer): Value {
    Obj(map["amount" := Str(t.amount), "fromAccount" := Str(t.fromAccount), "ledger" := Str(t.ledger),
            "salt" := Str(t.salt), "toAccount" := Str(t.toAccount), "unit" := Str(t.unit)])
  }

  const TRANSFER_KEYS: set<string> := {"amount", "fromAccount", "ledger", "salt", "toAccount", "unit"}

  /** The six members in key order, then the closed world, then the two accounts; the first failure is reported. */
  function CheckTransfer(v: Value): Checked<Transfer>
    requires v.Obj?
  {
    var amount, fromAccount, ledger := TextOf(v, "amount"), TextOf(v, "fromAccount"), TextOf(v, "ledger");
    var salt, toAccount, unit := TextOf(v, "salt"), TextOf(v, "toAccount"), TextOf(v, "unit");
    if amount.None? || !AmountOk(amount.value) then Bad(AMOUNT_INVALID)
    else if fromAccount.None? || !IdentifierOk(fromAccount.value) then Bad(FROM_INVALID)
    else if ledger.None? || !IdentifierOk(ledger.value) then Bad(LEDGER_INVALID)
    else if salt.None? || !HexOk(salt.value, 32) then Bad(SALT_INVALID)
    else if toAccount.None? || !IdentifierOk(toAccount.value) then Bad(TO_INVALID)
    else if unit != Some("XTS") then Bad(UNIT_INVALID)
    else if !(v.members.Keys <= TRANSFER_KEYS) then Bad(UNRECOGNIZED_MEMBER)
    else if fromAccount == toAccount then Bad(SAME_ACCOUNT)
    else Ok(Transfer(amount.value, fromAccount.value, ledger.value, salt.value, toAccount.value, unit.value))
  }

  /** The rules accept exactly the objects that are a valid tuple, with nothing else in them. */
  lemma CheckTransferExact(v: Value, t: Transfer)
    requires v.Obj?
    ensures CheckTransfer(v) == Ok(t) <==> TransferOk(t) && v == TransferValue(t)
  {
    hide AmountOk, IdentifierOk, HexOk;
    if CheckTransfer(v) == Ok(t) {
      assert v.members.Keys == TRANSFER_KEYS;
      assert v.members == TransferValue(t).members;
    }
  }

  ghost function TransferView(canonical: bytes): Option<Transfer> {
    var v :- Document(canonical);
    if !v.Obj? then None
    else match CheckTransfer(v) case Ok(t) => Some(t) case Bad(_) => None
  }

  const LEDGER_ACTION := "noa.ledger.transfer"

  function TransferRows(t: Transfer): map<string, string> {
    map["Action" := LEDGER_ACTION, "Ledger" := t.ledger, "From" := t.fromAccount, "To" := t.toAccount,
        "Amount" := t.amount + " " + t.unit, "Salt" := t.salt]
  }

  ghost function ProjectTransfer(data: bytes): Projection<Transfer> {
    match Document(data)
    case None => Refuse(PARSE)
    case Some(v) =>
      if !v.Obj? then Refuse(NOT_OBJECT)
      else
        match CheckTransfer(v)
        case Bad(code) => Refuse(code)
        case Ok(t) =>
          match Canonicalize(TransferValue(t))
          case None => Refuse(CANONICAL_REPARSE)
          case Some(canonical) =>
            match TransferView(canonical)
            case None => Refuse(CANONICAL_REPARSE)
            case Some(bound) => Shown(canonical, bound, TransferRows(bound))
  }

  lemma TransferFlat(t: Transfer)
    requires TransferOk(t)
    ensures FlatTexts(TransferValue(t), 6)
  {
    hide AmountOk, IdentifierOk, HexOk, FlatTexts;
    ShortTexts(t);
    SixTextsFlat("amount", "fromAccount", "ledger", "salt", "toAccount", "unit",
                 t.amount, t.fromAccount, t.ledger, t.salt, t.toAccount, t.unit);
  }

  lemma ShortTexts(t: Transfer)
    requires TransferOk(t)
    ensures |t.amount| <= 300 && |t.fromAccount| <= 300 && |t.ledger| <= 300 && |t.salt| <= 300 && |t.toAccount| <= 300
            && |t.unit| <= 300
  {
  }

  /** Reading back the bytes just written gives the same tuple: the render node cannot refuse. */
  lemma TransferReads(t: Transfer)
    requires TransferOk(t)
    ensures Canonicalize(TransferValue(t)) == Some(Print(TransferValue(t)))
    ensures TransferView(Print(TransferValue(t))) == Some(t)
  {
    hide Canonicalize, Document, TransferOk, CheckTransfer, FlatTexts;
    TransferFlat(t);
    FlatTextsReparse(TransferValue(t));
    CheckTransferExact(TransferValue(t), t);
  }

  /**
   * What the projection shows is the tuple of the document, its canonical bytes and its rows, and no input reaches
   * the re-parse refusal.
   */
  lemma TransferProjection(data: bytes, t: Transfer)
    ensures ProjectTransfer(data) != Refuse(CANONICAL_REPARSE)
    ensures Document(data) == Some(TransferValue(t)) && TransferOk(t)
            <==> ProjectTransfer(data).Shown? && ProjectTransfer(data).value == t
    ensures ProjectTransfer(data).Shown? && ProjectTransfer(data).value == t ==>
              ProjectTransfer(data) == Shown(Print(TransferValue(t)), t, TransferRows(t))
  {
    hide Document, TransferOk, Canonicalize, Print, TransferValue, TransferRows;
    if Document(data).Some? && Document(data).value.Obj? {
      var v := Document(data).value;
      NeverReparseCode(v);
      CheckTransferExact(v, t);
      if CheckTransfer(v).Ok? {
        CheckTransferExact(v, CheckTransfer(v).value);
        TransferReads(CheckTransfer(v).value);
      }
    }
    ValueIsObject(t);
  }

  lemma NeverReparseCode(v: Value)
    requires v.Obj?
    ensures CheckTransfer(v) != Bad(CANONICAL_REPARSE)
  {
  }

  lemma ValueIsObject(t: Transfer)
    ensures TransferValue(t).Obj?
  {
  }

  /** The tuple rebuilt from the rows alone: the last three characters of the amount row are the unit, after a space. */
  function TransferFromRows(rows: map<string, string>): Option<Transfer> {
    if !({"Ledger", "From", "To", "Amount", "Salt"} <= rows.Keys) || |rows["Amount"]| < 4 then None
    else
      var a := rows["Amount"];
      Some(Transfer(a[..|a| - 4], rows["From"], rows["Ledger"], rows["Salt"], rows["To"], a[|a| - 3..]))
  }

  lemma TransferRowsRebuild(t: Transfer)
    requires TransferOk(t)
    ensures TransferFromRows(TransferRows(t)) == Some(t)
  {
    hide AmountOk, IdentifierOk, HexOk;
    var a := t.amount + " " + t.unit;
    assert a[..|a| - 4] == t.amount;
    assert a[|a| - 3..] == t.unit;
  }

  /** Two documents bind the same bytes exactly when they show the same rows, and then they are the same tuple. */
  lemma TransferBinds(a: bytes, b: bytes)
    requires ProjectTransfer(a).Shown? && ProjectTransfer(b).Shown?
    ensures ProjectTransfer(a).canonical == ProjectTransfer(b).canonical
            <==> ProjectTransfer(a).rows == ProjectTransfer(b).rows
    ensures ProjectTransfer(a).rows == ProjectTransfer(b).rows <==> ProjectTransfer(a).value == ProjectTransfer(b).value
  {
    hide ProjectTransfer, TransferOk, TransferRows, TransferFromRows, TransferView;
    var s, t := ProjectTransfer(a).value, ProjectTransfer(b).value;
    TransferProjection(a, s);
    TransferProjection(b, t);
    TransferRowsRebuild(s);
    TransferRowsRebuild(t);
    TransferReads(s);
    TransferReads(t);
  }

  /** The bound bytes project to the same result again. */
  lemma TransferIdempotent(data: bytes)
    requires ProjectTransfer(data).Shown?
    ensures ProjectTransfer(ProjectTransfer(data).canonical) == ProjectTransfer(data)
  {
    hide ProjectTransfer, TransferOk, TransferRows, TransferValue, Document;
    var t := ProjectTransfer(data).value;
    TransferProjection(data, t);
    TransferReads(t);
    TransferFlat(t);
    FlatTextsReparse(TransferValue(t));
    TransferProjection(Print(TransferValue(t)), t);
  }
}
