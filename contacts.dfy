/**
 * The contact manager: the list of contacts that one form adds to or edits
 * (depending on the `isEditing` / `editId` pair), the delete buttons, and the
 * search over name, phone and email.
 */
module Contacts {
  import opened Wrappers
  import opened JsString
  import opened JsArray
  import opened Storage

  /** A contact; its id is the text of the clock reading taken when it was added. */
  datatype Contact = Contact(id: string, name: string, phone: string, email: string)

  predicate HasContact(contacts: seq<Contact>, id: string) {
    exists i :: 0 <= i < |contacts| && contacts[i].id == id
  }

  // ---------------------------------------------------------------------------
  // Search
  // ---------------------------------------------------------------------------

  /** The test of `renderContacts`: name and email ignore case, the phone number does not. */
  predicate MatchesFilter(c: Contact, filter: string) {
    || Includes(Lower(c.name), Lower(filter))
    || Includes(c.phone, filter)
    || Includes(Lower(c.email), Lower(filter))
  }

  function Matcher(filter: string): Contact -> bool {
    (c: Contact) => MatchesFilter(c, filter)
  }

  /** `filteredContacts`: the matching contacts in list order; the empty filter shows them all. */
  function FilteredContacts(contacts: seq<Contact>, filter: string): (r: seq<Contact>)
    ensures IsSubsequence(r, contacts)
    ensures forall x :: multiset(r)[x] == if MatchesFilter(x, filter) then multiset(contacts)[x] else 0
    ensures filter == "" ==> r == contacts
  {
    FilterSpec(contacts, Matcher(filter));
    if filter == "" then
      forall c: Contact ensures MatchesFilter(c, "") {
        IncludesEmpty(c.phone);
      }
      FilterKeepsAll(contacts, Matcher(filter));
      Filter(contacts, Matcher(filter))
    else
      Filter(contacts, Matcher(filter))
  }

  /** A case-only change to the filter can change the result, through the phone number alone. */
  lemma PhoneMatchIsCaseSensitive()
    ensures var c := Contact("1", "Ann", "ext A1", "a@b.c");
            MatchesFilter(c, "ext A1") && !MatchesFilter(c, "ext a1")
  {
    var c := Contact("1", "Ann", "ext A1", "a@b.c");
    assert "ext A1" <= c.phone[0..];
    assert !Includes(c.phone, "ext a1") by {
      forall i | 0 <= i <= |c.phone|
        ensures !("ext a1" <= c.phone[i..])
      {
        if i == 0 {
          assert c.phone[4] != "ext a1"[4];
        }
      }
    }
    assert Lower("ext a1") == "ext a1";
    assert !Includes(Lower(c.name), "ext a1") by {
      assert |Lower(c.name)| == 3;
    }
    assert !Includes(Lower(c.email), "ext a1") by {
      assert |Lower(c.email)| == 5;
    }
  }

  // ---------------------------------------------------------------------------
  // Edit and delete on the list
  // ---------------------------------------------------------------------------

  /** `contacts.map(c => c.id === editId ? { ...c, name, phone, email } : c)` */
  function ReplaceContact(contacts: seq<Contact>, editId: Option<string>, name: string, phone: string, email: string): (r: seq<Contact>)
    ensures |r| == |contacts|
    ensures forall i :: 0 <= i < |r| ==> r[i].id == contacts[i].id
    ensures forall i :: 0 <= i < |r| ==>
              r[i] == if Some(contacts[i].id) == editId then Contact(contacts[i].id, name, phone, email) else contacts[i]
    ensures editId.None? || !HasContact(contacts, editId.value) ==> r == contacts
  {
    seq(|contacts|, i requires 0 <= i < |contacts| =>
      if Some(contacts[i].id) == editId then contacts[i].(name := name, phone := phone, email := email) else contacts[i])
  }

  function WithoutId(id: string): Contact -> bool {
    (c: Contact) => c.id != id
  }

  /** `contacts.filter(c => c.id !== id)` */
  function RemoveContact(contacts: seq<Contact>, id: string): (r: seq<Contact>)
    ensures !HasContact(r, id)
    ensures IsSubsequence(r, contacts)
    ensures forall x :: multiset(r)[x] == if x.id != id then multiset(contacts)[x] else 0
  {
    FilterSpec(contacts, WithoutId(id));
    Filter(contacts, WithoutId(id))
  }

  /** Deleting one id leaves every contact with another id in the list. */
  lemma RemoveKeepsOthers(contacts: seq<Contact>, id: string, other: string)
    requires other != id && HasContact(contacts, other)
    ensures HasContact(RemoveContact(contacts, id), other)
  {
    var i :| 0 <= i < |contacts| && contacts[i].id == other;
    var c := contacts[i];
    assert multiset(contacts)[c] > 0;
    assert multiset(RemoveContact(contacts, id))[c] > 0;
    assert c in RemoveContact(contacts, id);
  }

  // ---------------------------------------------------------------------------
  // The page's state and its handlers
  // ---------------------------------------------------------------------------

  /** The closure state of the page: the contacts, the edit mode and its id, the localStorage snapshot. */
  class ContactApp {
    var contacts: seq<Contact>
    var isEditing: bool
    var editId: Option<string>
    ghost var stored: Option<seq<Contact>>

    /** Edit mode is on exactly when an id is set, and that id names a contact in the list. */
    ghost predicate Valid()
      reads this
    {
      && Mirrors(stored, contacts)
      && (isEditing <==> editId.Some?)
      && (isEditing ==> HasContact(contacts, editId.value))
    }

    /** Page load: the saved contacts, not editing. */
    constructor (saved: Option<seq<Contact>>)
      ensures Valid()
      ensures stored == saved && contacts == Load(saved)
      ensures !isEditing && editId == None
    {
      contacts := Load(saved);
      stored := saved;
      isEditing := false;
      editId := None;
    }

    /**
     * `resetForm`, also the cancel button's handler: leave edit mode. It restores
     * `Valid()` from any state whose snapshot is current.
     */
    method ResetForm()
      requires Mirrors(stored, contacts)
      modifies this
      ensures Valid()
      ensures contacts == old(contacts) && stored == old(stored)
      ensures !isEditing && editId == None
    {
      isEditing := false;
      editId := None;
    }

    /** `deleteContact`: once confirmed, every contact with the id goes; editing that id ends edit mode. */
    method DeleteContact(id: string, confirmed: bool)
      requires Valid()
      modifies this
      ensures Valid()
      ensures !confirmed ==> unchanged(this)
      ensures confirmed ==> contacts == RemoveContact(old(contacts), id) && stored == Some(contacts)
      ensures confirmed && old(isEditing) && old(editId) == Some(id) ==> !isEditing && editId == None
      ensures !(confirmed && old(isEditing) && old(editId) == Some(id)) ==>
                isEditing == old(isEditing) && editId == old(editId)
    {
      if !confirmed {
        return;
      }
      contacts := RemoveContact(contacts, id);
      stored := Some(contacts);
      if isEditing && editId == Some(id) {
        ResetForm();
      } else if isEditing {
        RemoveKeepsOthers(old(contacts), id, editId.value);
      }
    }

    /** `editContact`: enter edit mode for the contact, if there is one with that id. */
    method EditContact(id: string)
      requires Valid()
      modifies this
      ensures Valid()
      ensures contacts == old(contacts) && stored == old(stored)
      ensures HasContact(contacts, id) ==> isEditing && editId == Some(id)
      ensures !HasContact(contacts, id) ==> isEditing == old(isEditing) && editId == old(editId)
    {
      var index := FindIndex(contacts, (c: Contact) => c.id == id);
      if index != -1 {
        isEditing := true;
        editId := Some(id);
      }
    }

    /**
     * The form's submit handler. Editing: the contacts with `editId` get the new
     * fields. Not editing: a new contact goes at the end. Then save and reset.
     */
    method Submit(name: string, phone: string, email: string, newId: string)
      requires Valid()
      modifies this
      ensures Valid()
      ensures old(isEditing) ==> contacts == ReplaceContact(old(contacts), old(editId), name, phone, email)
      ensures !old(isEditing) ==> contacts == old(contacts) + [Contact(newId, name, phone, email)]
      ensures stored == Some(contacts)
      ensures !isEditing && editId == None
    {
      if isEditing {
        contacts := ReplaceContact(contacts, editId, name, phone, email);
      } else {
        contacts := contacts + [Contact(newId, name, phone, email)];
      }
      stored := Some(contacts);
      ResetForm();
    }
  }
}
