/**
 * The employee credentials page: a table of credential entries edited through a form, deleted
 * after confirmation, and shown or exported only after the security code is entered.
 */
module Credentials {
  import opened Wrappers
  import opened Tables

  /** `SECURITY_CODE`. */
  const SecurityCode: string := "9899"

  /** An entry of the table, and the form that edits one; `id` is `null` for a new entry. */
  datatype Credential = Credential(
    id: Option<string>, employeeName: string, companyEmail: string, companyEmailPassword: string,
    companyTeamPassword: string, agentName: string, laptopPassword: string)

  /** `initialForm`: no id and every field empty. */
  const InitialForm: Credential := Credential(None, "", "", "", "", "", "")

  /** `if (id)`: a non-null, non-empty id. */
  predicate HasId(c: Credential)
  {
    c.id.Some? && c.id.value != ""
  }

  /** `!Object.values(data).some(v => !v)`: every field other than the id is non-empty. */
  predicate Complete(c: Credential)
  {
    c.employeeName != "" && c.companyEmail != "" && c.companyEmailPassword != ""
    && c.companyTeamPassword != "" && c.agentName != "" && c.laptopPassword != ""
  }

  /** The reset form is never accepted: closing the modal and submitting writes nothing. */
  lemma InitialFormIncomplete()
    ensures !Complete(InitialForm) && !HasId(InitialForm)
  {
  }

  /** `list.map(x => x.id === id ? formData : x)`. */
  function ReplaceById(creds: seq<Credential>, form: Credential): (r: seq<Credential>)
    ensures |r| == |creds|
    ensures forall i :: 0 <= i < |creds| ==> r[i] == if creds[i].id == form.id then form else creds[i]
  {
    ReplaceWhere(creds, (x: Credential) => x.id == form.id, form)
  }

  /** Submitting the same edit twice leaves the table as submitting it once. */
  lemma ReplaceByIdIdempotent(creds: seq<Credential>, form: Credential)
    ensures ReplaceById(ReplaceById(creds, form), form) == ReplaceById(creds, form)
  {
  }

  /** `[...list, { id: newId, ...data }]`. */
  function AppendNew(creds: seq<Credential>, form: Credential, newId: string): (r: seq<Credential>)
    ensures |r| == |creds| + 1 && r[..|creds|] == creds
    ensures r[|creds|] == form.(id := Some(newId))
  {
    creds + [form.(id := Some(newId))]
  }

  /** `list.filter(x => x.id !== id)`. */
  function DeleteById(creds: seq<Credential>, id: string): seq<Credential>
  {
    Filter(creds, (x: Credential) => x.id != Some(id))
  }

  /** Deleting keeps exactly the entries with another id, and leaves none with that id. */
  lemma DeleteMembers(creds: seq<Credential>, id: string, c: Credential)
    ensures c in DeleteById(creds, id) <==> c in creds && c.id != Some(id)
  {
    FilterMembers(creds, (x: Credential) => x.id != Some(id), c);
  }

  /** Deleting an id no entry carries changes nothing. */
  lemma {:induction false} DeleteAbsent(creds: seq<Credential>, id: string)
    requires forall i :: 0 <= i < |creds| ==> creds[i].id != Some(id)
    ensures DeleteById(creds, id) == creds
  {
    if creds != [] {
      DeleteAbsent(creds[1..], id);
      assert creds == [creds[0]] + creds[1..];
    }
  }

  /** Deleting the entry just added under a fresh id restores the table. */
  lemma AppendThenDelete(creds: seq<Credential>, form: Credential, newId: string)
    requires forall i :: 0 <= i < |creds| ==> creds[i].id != Some(newId)
    ensures DeleteById(AppendNew(creds, form, newId), newId) == creds
  {
    var added := form.(id := Some(newId));
    FilterAppend(creds, [added], (x: Credential) => x.id != Some(newId));
    DeleteAbsent(creds, newId);
    assert Filter([added], (x: Credential) => x.id != Some(newId)) == [];
  }

  /** `code === SECURITY_CODE`; a cancelled prompt gives `null` (`None`). */
  predicate CodeAccepted(code: Option<string>)
  {
    code == Some(SecurityCode)
  }

  /** What `handleSubmit` did. */
  datatype SubmitOutcome = MissingFields | WriteFailed | Replaced | Appended

  /** The page's state: the table, the form and the two modals. */
  class CredentialsPage {
    var creds: seq<Credential>
    var formData: Credential
    var modalOpen: bool
    var viewModalOpen: bool
    var viewData: Option<Credential>

    constructor (creds: seq<Credential>)
      ensures this.creds == creds && formData == InitialForm && !modalOpen && !viewModalOpen && viewData.None?
    {
      this.creds := creds;
      formData := InitialForm;
      modalOpen := false;
      viewModalOpen := false;
      viewData := None;
    }

    /** `openModal`: the form holds the entry to edit, or the empty form for a new one. */
    method OpenModal(item: Option<Credential>)
      modifies this`formData, this`modalOpen
      ensures formData == (if item.Some? then item.value else InitialForm) && modalOpen
    {
      formData := if item.Some? then item.value else InitialForm;
      modalOpen := true;
    }

    /** `closeModal`: closes the form and resets it to `initialForm`. */
    method CloseModal()
      modifies this`formData, this`modalOpen
      ensures formData == InitialForm && !modalOpen
    {
      modalOpen := false;
      formData := InitialForm;
    }

    /**
     * `handleSubmit`: rejects a form with an empty field; otherwise writes it, and when the
     * write succeeds replaces the entry with the form's id or appends it under the store's
     * new id, then closes and resets the form. A failed write changes nothing.
     */
    method HandleSubmit(newId: string, writeOk: bool) returns (outcome: SubmitOutcome)
      modifies this`creds, this`formData, this`modalOpen
      ensures outcome == MissingFields <==> !Complete(old(formData))
      ensures outcome == WriteFailed <==> Complete(old(formData)) && !writeOk
      ensures outcome == MissingFields || outcome == WriteFailed ==> unchanged(this)
      ensures outcome == Replaced ==> HasId(old(formData)) && creds == ReplaceById(old(creds), old(formData))
      ensures outcome == Appended ==> !HasId(old(formData)) && creds == AppendNew(old(creds), old(formData), newId)
      ensures outcome == Replaced || outcome == Appended ==> formData == InitialForm && !modalOpen
    {
      if !Complete(formData) {
        return MissingFields;
      }
      if !writeOk {
        return WriteFailed;
      }
      if HasId(formData) {
        creds := ReplaceById(creds, formData);
        outcome := Replaced;
      } else {
        creds := AppendNew(creds, formData, newId);
        outcome := Appended;
      }
      CloseModal();
    }

    /**
     * `handleDelete`: after confirmation, and when the delete succeeds, drops the entries with
     * that id and closes the view modal.
     */
    method HandleDelete(id: string, confirmed: bool, writeOk: bool)
      modifies this`creds, this`viewModalOpen, this`viewData
      ensures !confirmed || !writeOk ==> unchanged(this)
      ensures confirmed && writeOk ==> creds == DeleteById(old(creds), id) && !viewModalOpen && viewData.None?
    {
      if !confirmed || !writeOk {
        return;
      }
      creds := DeleteById(creds, id);
      viewModalOpen := false;
      viewData := None;
    }

    /** `handleView`: shows the entry only for the right code. */
    method HandleView(item: Credential, code: Option<string>)
      modifies this`viewModalOpen, this`viewData
      ensures CodeAccepted(code) ==> viewData == Some(item) && viewModalOpen
      ensures !CodeAccepted(code) ==> unchanged(this)
    {
      if code == Some(SecurityCode) {
        viewData := Some(item);
        viewModalOpen := true;
      }
    }
  }

  /** `exportPDF`'s gate: the table is exported only for the right code. */
  method ExportAllowed(code: Option<string>) returns (allowed: bool)
    ensures allowed <==> code.Some? && code.value == "9899"
  {
    if code != Some(SecurityCode) {
      return false;
    }
    return true;
  }
}
