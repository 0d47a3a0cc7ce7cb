/** Session items: the existence check by id, and CreateNewSessionItem,
    which validates its input, fixes the source columns and inserts a row.

    The item table is a sequence of rows; the id the storage assigns to a
    new row and storage failures are parameters. */
module SessionItems {
  import opened Common

  /** `SourceCustom`, the only source type the insert ever uses. */
  const SourceCustom: string := "custom"

  /** SessionItemInput. Its SourceType and the metadata bytes come from the
      caller and are free. */
  datatype Input = Input(title: string, description: string, imageURL: string, sessionId: Uuid,
                         addedByUserID: Uuid, sourceType: string, metadata: seq<Byte>)

  /** A nullable column value as sent to the storage: the value, and whether
      it is set (`Valid`); an unset value is stored as NULL. */
  datatype Nullable<T> = Nullable(v: T, valid: bool)

  /** CreateSessionItemParams. */
  datatype Params = Params(sessionID: Uuid, itemTitle: string, itemDescription: Nullable<string>,
                           imageUrl: Nullable<string>, sourceType: string, sourceID: Nullable<string>,
                           metadata: Nullable<seq<Byte>>, addedByUserID: Uuid)

  /** A stored item; NULL columns are None. */
  datatype ItemRow = ItemRow(id: Uuid, sessionID: Uuid, title: string, description: Option<string>,
                             imageUrl: Option<string>, sourceType: string, sourceID: Option<string>,
                             metadata: Option<seq<Byte>>, addedByUserID: Uuid)

  datatype Error =
    | CheckFailed    // "database error checking session item: ..."
    | MissingID      // "missing ID"
    | TitleRequired  // "title is required"
    | CreateFailed   // "failed to create session item: ..."

  // -----------------------------------------------------------------------
  // CheckSessionItemExists

  datatype Lookup = Found(row: ItemRow) | NoRows | QueryFailed

  predicate HasItem(items: seq<ItemRow>, itemID: Uuid) {
    exists k :: 0 <= k < |items| && items[k].id == itemID
  }

  function FindItem(items: seq<ItemRow>, itemID: Uuid): (r: Option<ItemRow>)
    ensures r.Some? ==> r.value in items && r.value.id == itemID
    ensures r.None? <==> !HasItem(items, itemID)
    decreases |items|
  {
    if items == [] then None
    else if items[0].id == itemID then Some(items[0])
    else
      var r := FindItem(items[1..], itemID);
      assert forall k :: 1 <= k < |items| ==> items[k] == items[1..][k - 1];
      r
  }

  /** GetSessionItemByID; `fails` is a storage failure. */
  function GetSessionItemByID(items: seq<ItemRow>, itemID: Uuid, fails: bool): Lookup {
    if fails then QueryFailed
    else match FindItem(items, itemID)
      case None => NoRows
      case Some(row) => Found(row)
  }

  function CheckSessionItemExists(items: seq<ItemRow>, itemID: Uuid, fails: bool): Result<bool, Error> {
    match GetSessionItemByID(items, itemID, fails)
    case NoRows => Ok(false)
    case Found(_) => Ok(true)
    case QueryFailed => Err(CheckFailed)
  }

  /** "No rows" is false, a row is true, any other error is an error. */
  lemma CheckSessionItemExistsSpec(items: seq<ItemRow>, itemID: Uuid, fails: bool)
    ensures CheckSessionItemExists(items, itemID, fails) == Ok(false) <==> !fails && !HasItem(items, itemID)
    ensures CheckSessionItemExists(items, itemID, fails) == Ok(true) <==> !fails && HasItem(items, itemID)
    ensures CheckSessionItemExists(items, itemID, fails).Err? <==> fails
    ensures fails ==> CheckSessionItemExists(items, itemID, fails) == Err(CheckFailed)
  {
  }

  // -----------------------------------------------------------------------
  // CreateNewSessionItem

  /** The guards and the fixed fields of CreateNewSessionItem, before the
      insert. */
  function ItemParams(input: Input): Result<Params, Error> {
    if input.sessionId == Nil || input.addedByUserID == Nil then Err(MissingID)
    else if input.title == "" then Err(TitleRequired)
    else Ok(Params(input.sessionId, input.title, Nullable(input.description, false),
                   Nullable(input.imageURL, false), SourceCustom, Nullable("", false),
                   Nullable(input.metadata, false), input.addedByUserID))
  }

  /** What the storage keeps of a value: NULL unless it is set. */
  function Column<T>(n: Nullable<T>): Option<T> {
    if n.valid then Some(n.v) else None
  }

  /** The row the insert stores (CreateSessionItem ... RETURNING *). */
  function StoredRow(id: Uuid, p: Params): ItemRow {
    ItemRow(id, p.sessionID, p.itemTitle, Column(p.itemDescription), Column(p.imageUrl), p.sourceType,
            Column(p.sourceID), Column(p.metadata), p.addedByUserID)
  }

  datatype Written = Written(items: seq<ItemRow>, result: Result<ItemRow, Error>)

  /** CreateNewSessionItem; `newId` is the id the storage assigns, and the
      insert fails on a storage failure or when that id is taken. */
  function CreateItem(items: seq<ItemRow>, input: Input, newId: Uuid, insertFails: bool): Written {
    match ItemParams(input)
    case Err(e) => Written(items, Err(e))
    case Ok(p) =>
      if insertFails || HasItem(items, newId) then Written(items, Err(CreateFailed))
      else Written(items + [StoredRow(newId, p)], Ok(StoredRow(newId, p)))
  }

  /** The validation: a nil session or user id is "missing ID", whatever the
      title; otherwise an empty title is "title is required"; every other
      input passes. */
  lemma ItemParamsGuards(input: Input)
    ensures (input.sessionId == Nil || input.addedByUserID == Nil) ==> ItemParams(input) == Err(MissingID)
    ensures (input.sessionId != Nil && input.addedByUserID != Nil && input.title == "") ==> ItemParams(input) == Err(TitleRequired)
    ensures ItemParams(input).Ok? <==> (input.sessionId != Nil && input.addedByUserID != Nil && input.title != "")
  {
  }

  /** An insert that happens stores the input's session, title and user,
      source type "custom" whatever the input said, and NULL for the
      description, image URL, source id and metadata; a rejected input or
      a failed insert leaves the table as it was; a success appends exactly
      the returned row. */
  lemma CreateItemStores(items: seq<ItemRow>, input: Input, newId: Uuid, insertFails: bool)
    ensures var w := CreateItem(items, input, newId, insertFails);
      && (ItemParams(input).Err? ==> w == Written(items, Err(ItemParams(input).error)))
      && (ItemParams(input).Ok? && insertFails ==> w == Written(items, Err(CreateFailed)))
      && (w.result.Err? ==> w.items == items)
      && (w.result.Ok? ==>
            && w.items == items + [w.result.value]
            && w.result.value.id == newId
            && w.result.value.sessionID == input.sessionId
            && w.result.value.title == input.title
            && w.result.value.addedByUserID == input.addedByUserID
            && w.result.value.sourceType == SourceCustom
            && w.result.value.sourceID.None?
            && w.result.value.description.None?
            && w.result.value.imageUrl.None?
            && w.result.value.metadata.None?)
  {
  }

  /** The id of a created item was not in use before, and the existence
      check finds it afterwards. */
  lemma CreatedItemExists(items: seq<ItemRow>, input: Input, newId: Uuid, insertFails: bool)
    requires CreateItem(items, input, newId, insertFails).result.Ok?
    ensures CheckSessionItemExists(items, newId, false) == Ok(false)
    ensures CheckSessionItemExists(CreateItem(items, input, newId, insertFails).items, newId, false) == Ok(true)
  {
    var w := CreateItem(items, input, newId, insertFails);
    assert w.items[|items|].id == newId;
  }

  /** Item ids are distinct. */
  ghost predicate IdsDistinct(items: seq<ItemRow>) {
    forall i, j :: 0 <= i < j < |items| ==> items[i].id != items[j].id
  }

  lemma CreateItemKeepsIds(items: seq<ItemRow>, input: Input, newId: Uuid, insertFails: bool)
    requires IdsDistinct(items)
    ensures IdsDistinct(CreateItem(items, input, newId, insertFails).items)
  {
    var w := CreateItem(items, input, newId, insertFails);
    if w.result.Ok? {
      forall i, j | 0 <= i < j < |w.items| ensures w.items[i].id != w.items[j].id {
        if j == |items| {
          assert w.items[i] == items[i];
        }
      }
    }
  }

  /** SessionItemService: the item table. */
  class SessionItemService {
    var items: seq<ItemRow>

    ghost predicate Valid()
      reads this
    {
      IdsDistinct(items)
    }

    constructor ()
      ensures Valid() && items == []
    {
      items := [];
    }

    method CreateNewSessionItem(input: Input, newId: Uuid, insertFails: bool) returns (r: Result<ItemRow, Error>)
      requires Valid()
      modifies this
      ensures Valid()
      ensures items == CreateItem(old(items), input, newId, insertFails).items
      ensures r == CreateItem(old(items), input, newId, insertFails).result
    {
      CreateItemKeepsIds(items, input, newId, insertFails);
      var p := ItemParams(input);
      if p.Err? {
        return Err(p.error);
      }
      if insertFails || HasItem(items, newId) {
        return Err(CreateFailed);
      }
      var row := StoredRow(newId, p.value);
      items := items + [row];
      return Ok(row);
    }
  }
}
