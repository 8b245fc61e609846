/**
 * The add/edit item form (src/components/add-item-sheet.tsx): the values it
 * is reset to, the catalog auto-fill on selection and barcode entry, the
 * quantity stepper, and the name resolution on submit.
 */
module ItemForm {
  import opened Wrappers
  import opened Types
  import opened Validations
  import Catalog
  import JsStrings

  /** The values the form is reset to when it opens in add mode. */
  const ADD_DEFAULTS: FormInput := FormInput("", Some(""), 1, None, Some(Catalog.DEFAULT_THRESHOLD), Some(false), None, Some(""))

  /** A blank add form is rejected for its missing name and nothing else. */
  lemma AddDefaultsNeedOnlyAName()
    ensures ADD_DEFAULTS.quantity == 1 && ADD_DEFAULTS.lowStockThreshold == Some(5)
    ensures ADD_DEFAULTS.isRecurring == Some(false) && ADD_DEFAULTS.name == "" && ADD_DEFAULTS.barcode == Some("")
    ensures Validate(ADD_DEFAULTS) == Failure([Issue(Name, TooSmall(NAME_REQUIRED))])
  {
    var f := ADD_DEFAULTS;
    assert FieldIssues(f) == [Issue(Name, TooSmall(NAME_REQUIRED))] + [] + [] + [] + [];
    assert CrossFieldIssues(Parsed(f)) == [] + [];
    assert Issues(f) == [Issue(Name, TooSmall(NAME_REQUIRED))];
  }

  /** The values the form is reset to when it opens on a stored item. */
  function ResetForEdit(item: InventoryItem): (f: FormInput)
    ensures forall e :: e in Catalog.PREDEFINED_ITEMS && e.labelText == item.data.name ==>
      f.name == e.value && f.customName == Some("")
    ensures (forall e :: e in Catalog.PREDEFINED_ITEMS ==> e.labelText != item.data.name) ==>
      f.name == Catalog.OTHER && f.customName == Some(item.data.name)
    ensures f.quantity == item.data.quantity && f.expiryDate == item.data.expiryDate
    ensures f.lowStockThreshold == Some(item.data.lowStockThreshold) && f.isRecurring == Some(item.data.isRecurring)
    ensures f.barcode == item.data.barcode
    ensures f.recurringCycle.Some? <==> item.data.recurringCycle.Some?
    ensures f.recurringCycle.Some? ==> ParseCycle(f.recurringCycle.value) == item.data.recurringCycle
  {
    var predefined := Catalog.FindByLabel(item.data.name);
    assert forall e :: e in Catalog.PREDEFINED_ITEMS && e.labelText == item.data.name ==> predefined == Some(e) by {
      forall e | e in Catalog.PREDEFINED_ITEMS && e.labelText == item.data.name
        ensures predefined == Some(e)
      {
        Catalog.FindByLabelExact(item.data.name, e);
      }
    }
    assert item.data.recurringCycle.Some? ==> ParseCycle(CycleName(item.data.recurringCycle.value)) == item.data.recurringCycle by {
      if item.data.recurringCycle.Some? {
        ParseCycleName(item.data.recurringCycle.value);
      }
    }
    FormInput(
      if predefined.Some? then predefined.value.value else Catalog.OTHER,
      Some(if predefined.Some? then "" else item.data.name),
      item.data.quantity,
      item.data.expiryDate,
      Some(item.data.lowStockThreshold),
      Some(item.data.isRecurring),
      if item.data.recurringCycle.Some? then Some(CycleName(item.data.recurringCycle.value)) else None,
      item.data.barcode)
  }

  /** The quantity stepper: adds `amount` but never goes below zero; nothing else changes. */
  function AdjustQuantity(f: FormInput, amount: int): (r: FormInput)
    ensures r.quantity >= 0 && r.quantity >= f.quantity + amount
    ensures r.quantity == 0 || r.quantity == f.quantity + amount
    ensures r == f.(quantity := r.quantity)
  {
    f.(quantity := if f.quantity + amount > 0 then f.quantity + amount else 0)
  }

  /** The barcode text, with an absent barcode shown as the empty string. */
  function BarcodeOrEmpty(b: Option<string>): string {
    if b.None? || b.value == "" then "" else b.value
  }

  /** Choosing a catalog value in the selection. */
  function SelectPredefined(f: FormInput, value: string): (r: FormInput)
    ensures r.name == value
    ensures value == Catalog.OTHER ==> r == f.(name := value)
    ensures (forall e :: e in Catalog.PREDEFINED_ITEMS ==> e.value != value) ==> r == f.(name := value)
    ensures forall e :: e in Catalog.PREDEFINED_ITEMS && e.value == value && value != Catalog.OTHER ==>
      r == f.(name := value, barcode := Some(e.barcode.GetOr("")),
              lowStockThreshold := Some(e.lowStockThreshold.GetOr(Catalog.DEFAULT_THRESHOLD)))
  {
    var named := f.(name := value);
    if value != Catalog.OTHER then
      var selected := Catalog.FindByValue(value);
      if selected.Some? then
        var e := selected.value;
        assert forall e' :: e' in Catalog.PREDEFINED_ITEMS && e'.value == value ==> e' == e by {
          forall e' | e' in Catalog.PREDEFINED_ITEMS && e'.value == value
            ensures e' == e
          {
            Catalog.FindByValueExact(value, e');
          }
        }
        Catalog.ThresholdFallbackOnlyWhenAbsent(e);
        named.(barcode := Some(BarcodeOrEmpty(e.barcode)),
               lowStockThreshold := Some(Catalog.ThresholdOrDefault(e.lowStockThreshold)))
      else named
    else named
  }

  /** Typing a barcode: the barcode is always taken; a catalog match also fills in name and threshold. */
  function EnterBarcode(f: FormInput, barcode: string): (r: FormInput)
    ensures r.barcode == Some(barcode)
    ensures (forall e :: e in Catalog.PREDEFINED_ITEMS ==> e.barcode != Some(barcode)) ==> r == f.(barcode := Some(barcode))
    ensures forall e :: e in Catalog.PREDEFINED_ITEMS && e.barcode == Some(barcode) ==>
      r == f.(barcode := Some(barcode), name := e.value,
              lowStockThreshold := Some(e.lowStockThreshold.GetOr(Catalog.DEFAULT_THRESHOLD)))
  {
    var entered := f.(barcode := Some(barcode));
    var item := Catalog.FindByBarcode(barcode);
    if item.Some? then
      var e := item.value;
      assert forall e' :: e' in Catalog.PREDEFINED_ITEMS && e'.barcode == Some(barcode) ==> e' == e by {
        forall e' | e' in Catalog.PREDEFINED_ITEMS && e'.barcode == Some(barcode)
          ensures e' == e
        {
          Catalog.FindByBarcodeExact(barcode, e');
        }
      }
      Catalog.ThresholdFallbackOnlyWhenAbsent(e);
      entered.(name := e.value, lowStockThreshold := Some(Catalog.ThresholdOrDefault(e.lowStockThreshold)))
    else entered
  }

  /** The final item name: the custom name for `OTHER`, else the label of the selected entry; `None` when no entry has that value (the lookup throws). */
  function ResolveName(name: string, customName: Option<string>): (r: Option<string>)
    requires name == Catalog.OTHER ==> customName.Some?
    ensures name == Catalog.OTHER ==> r == customName
    ensures name != Catalog.OTHER ==>
      (r.None? <==> forall e :: e in Catalog.PREDEFINED_ITEMS ==> e.value != name)
    ensures forall e :: e in Catalog.PREDEFINED_ITEMS && e.value == name && name != Catalog.OTHER ==> r == Some(e.labelText)
  {
    if name == Catalog.OTHER then customName
    else
      var selected := Catalog.FindByValue(name);
      assert forall e :: e in Catalog.PREDEFINED_ITEMS && e.value == name ==> selected == Some(e) by {
        forall e | e in Catalog.PREDEFINED_ITEMS && e.value == name
          ensures selected == Some(e)
        {
          Catalog.FindByValueExact(name, e);
        }
      }
      if selected.Some? then Some(selected.value.labelText) else None
  }

  /** What the form hands on when submitted. */
  datatype Submission = AddRequest(data: ItemData) | EditRequest(item: InventoryItem) | LookupFailed

  /** Submitting validated values: add mode passes the fields, edit mode also keeps the edited item's id. */
  function Submit(d: ItemData, editing: Option<InventoryItem>): (s: Submission)
    requires d.name == Catalog.OTHER ==> d.customName.Some?
    ensures s.LookupFailed? <==> ResolveName(d.name, d.customName).None?
    ensures s.AddRequest? ==> editing.None? && s.data == d.(name := ResolveName(d.name, d.customName).value)
    ensures s.EditRequest? ==>
      editing.Some? && s.item == InventoryItem(editing.value.id, d.(name := ResolveName(d.name, d.customName).value))
    ensures !s.LookupFailed? ==> (s.AddRequest? <==> editing.None?)
  {
    var finalName := ResolveName(d.name, d.customName);
    if finalName.None? then LookupFailed
    else
      var submission := d.(name := finalName.value);
      if editing.Some? then EditRequest(InventoryItem(editing.value.id, submission))
      else AddRequest(submission)
  }

  /** Resetting the form on a stored item and resolving its name gives the stored name back, unless that name is the `OTHER` label. */
  lemma EditNameRoundTrip(item: InventoryItem)
    requires item.data.name != Catalog.OTHER_LABEL
    ensures var f := ResetForEdit(item);
      ResolveName(f.name, f.customName) == Some(item.data.name)
  {
    var f := ResetForEdit(item);
    var predefined := Catalog.FindByLabel(item.data.name);
    if predefined.Some? {
      Catalog.OtherLabelOnlyOnOther();
    }
  }

  /** The `OTHER` label does not survive the round trip: the form comes back needing a custom name. */
  lemma OtherLabelBreaksRoundTrip(item: InventoryItem)
    requires item.data.name == Catalog.OTHER_LABEL
    ensures ResetForEdit(item).name == Catalog.OTHER && ResetForEdit(item).customName == Some("")
  {
    Catalog.OtherEntryUnique();
  }

  /** Editing a valid stored item without touching the form validates and resubmits the same item, id included; only the transient custom name differs. */
  lemma EditRoundTrip(item: InventoryItem)
    requires item.data.name != Catalog.OTHER_LABEL && !JsStrings.AllWhiteSpace(item.data.name)
    requires item.data.quantity >= 0 && item.data.lowStockThreshold >= 0
    requires item.data.expiryDate != Some(InvalidDate)
    requires item.data.isRecurring ==> item.data.recurringCycle.Some?
    ensures Validate(ResetForEdit(item)).Success?
    ensures Submit(Validate(ResetForEdit(item)).value, Some(item))
      == EditRequest(InventoryItem(item.id, item.data.(customName := ResetForEdit(item).customName)))
  {
    var f := ResetForEdit(item);
    EditNameRoundTrip(item);
    ResetForEditAcceptable(item);
    var d := Validate(f).value;
    assert d.recurringCycle == item.data.recurringCycle by {
      if d.recurringCycle.Some? {
        CycleNameInjective(d.recurringCycle.value, item.data.recurringCycle.value);
      }
    }
    assert d.(name := item.data.name) == item.data.(customName := f.customName);
  }

  /** The form values of a valid stored item pass the schema. */
  lemma ResetForEditAcceptable(item: InventoryItem)
    requires item.data.name != Catalog.OTHER_LABEL && !JsStrings.AllWhiteSpace(item.data.name)
    requires item.data.quantity >= 0 && item.data.lowStockThreshold >= 0
    requires item.data.expiryDate != Some(InvalidDate)
    requires item.data.isRecurring ==> item.data.recurringCycle.Some?
    ensures Acceptable(ResetForEdit(item))
  {
    var f := ResetForEdit(item);
    var predefined := Catalog.FindByLabel(item.data.name);
    if predefined.Some? {
      Catalog.OtherLabelOnlyOnOther();
      assert f.name == predefined.value.value;
    } else {
      assert f.name == Catalog.OTHER;
      assert f.customName == Some(item.data.name);
    }
  }

  lemma CycleNameInjective(a: Cycle, b: Cycle)
    requires CycleName(a) == CycleName(b)
    ensures a == b
  {
  }
}
