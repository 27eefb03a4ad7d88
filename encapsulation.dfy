/**
 * The encapsulation example: a `DeepCOpy` object keeps a private list of
 * mutable `EMail` objects and never shares it. `setMails` stores new `EMail`
 * objects copied from the caller's, `getMails` hands out new copies of its own,
 * so no caller ever holds a reference to the internal list or its elements.
 *
 * Java lists are objects here (`MailList`), so that a caller adding to a list
 * it got back is a change to a separate object, as in the source. The object's
 * private state is `mails` together with `Repr`, the set of objects it owns
 * (the internal list and its elements).
 */
module Encapsulation {
  import opened Wrappers

  /** The inner class `EMail`: one mutable address. */
  class EMail {
    var address: string

    constructor (address: string)
      ensures this.address == address
    {
      this.address := address;
    }

    /** `getAddress()`: the address currently held, read without changing anything. */
    function GetAddress(): (a: string)
      reads this
      ensures a == address
    {
      address
    }

    method SetAddress(address: string)
      modifies this
      ensures this.address == address
    {
      this.address := address;
    }
  }

  /** A `java.util.List<EMail>` as the example uses it: built with `add`, read in order. Elements may be null. */
  class MailList {
    var elems: seq<EMail?>

    constructor ()
      ensures elems == []
    {
      elems := [];
    }

    method Add(e: EMail?)
      modifies this
      ensures elems == old(elems) + [e]
    {
      elems := elems + [e];
    }
  }

  predicate NoNulls(s: seq<EMail?>) {
    forall i :: 0 <= i < |s| ==> s[i] != null
  }

  /** The addresses held by a list of non-null `EMail`s, in list order. */
  function AddressesOf(s: seq<EMail?>): (r: seq<string>)
    requires NoNulls(s)
    reads s
    ensures |r| == |s|
    ensures forall k :: 0 <= k < |s| ==> r[k] == s[k].address
  {
    if s == [] then [] else [s[0].address] + AddressesOf(s[1..])
  }

  /**
   * The copy loop of `setMails` and `getMails`: a new list holding a new
   * `EMail` with the same address for each element, in order. Reading the
   * address of a null element throws, which is reported as a null result.
   * Every object of the copy is in the newly allocated set `copies`.
   */
  method CopyOf(src: seq<EMail?>) returns (copy: MailList?, ghost copies: set<object>)
    ensures copy == null <==> !NoNulls(src)
    ensures copy != null ==>
              fresh(copies) && copy in copies && NoNulls(copy.elems) &&
              (forall k :: 0 <= k < |copy.elems| ==> copy.elems[k] in copies) &&
              AddressesOf(copy.elems) == AddressesOf(src)
  {
    var list := new MailList();
    copies := {list};
    var i := 0;
    while i < |src|
      invariant 0 <= i <= |src|
      invariant fresh(copies) && list in copies
      invariant |list.elems| == i && NoNulls(list.elems)
      invariant forall k :: 0 <= k < i ==>
                  src[k] != null && list.elems[k] in copies && list.elems[k].address == src[k].address
    {
      var mail := src[i];
      if mail == null {
        return null, copies;
      }
      var duplicate := new EMail(mail.GetAddress());
      list.Add(duplicate);
      copies := copies + {duplicate};
      i := i + 1;
    }
    assert AddressesOf(list.elems) == AddressesOf(src);
    copy := list;
  }

  /** `IllegalArgumentException` for a null list; `NullPointerException` for a null element, or for reading mails never set. */
  datatype MailError = IllegalArgument(message: string) | NullPointer

  const NullListMessage := "E-Mail-Liste darf nicht null sein."

  class DeepCopy {
    var mails: MailList?
    ghost var Repr: set<object>

    /** The internal list, when there is one, and every element of it belong to this object; no element is null. */
    ghost predicate Valid()
      reads this, Repr
    {
      mails != null ==>
        mails in Repr && NoNulls(mails.elems) &&
        forall i :: 0 <= i < |mails.elems| ==> mails.elems[i] in Repr
    }

    /** The abstract state: the stored addresses in order, or `None` before the first successful `setMails`. */
    ghost function Addresses(): Option<seq<string>>
      reads this, Repr
      requires Valid()
    {
      if mails == null then None else Some(AddressesOf(mails.elems))
    }

    /** The implicit constructor: the field starts out null. */
    constructor ()
      ensures Valid() && Addresses() == None && Repr == {}
    {
      mails := null;
      Repr := {};
    }

    /**
     * `setMails(list)`: refuses a null list, then copies every element into a
     * new `EMail` of a new list, and only then replaces the field. A null element
     * throws from inside the loop, before the field is touched. On success every
     * object the state now consists of is newly allocated, so none of them is
     * reachable from the caller.
     */
    method SetMails(list: MailList?) returns (outcome: Outcome<MailError>)
      requires Valid()
      modifies this
      ensures Valid()
      ensures list == null ==> outcome == Fail(IllegalArgument(NullListMessage))
      ensures list != null && !NoNulls(list.elems) ==> outcome == Fail(NullPointer)
      ensures outcome.Fail? ==> mails == old(mails) && Repr == old(Repr) && Addresses() == old(Addresses())
      ensures list != null && NoNulls(list.elems) ==>
                outcome == Pass && fresh(Repr) && Addresses() == Some(AddressesOf(list.elems))
    {
      if list == null {
        return Fail(IllegalArgument(NullListMessage));
      }
      var deepCopiedList, copies := CopyOf(list.elems);
      if deepCopiedList == null {
        return Fail(NullPointer);
      }
      mails := deepCopiedList;
      Repr := copies;
      outcome := Pass;
    }

    /**
     * `getMails()`: a new list of new `EMail`s with the stored addresses in
     * order. Nothing is modified, and nothing returned is part of the state.
     * Before any successful `setMails` the loop over the null field throws.
     */
    method GetMails() returns (r: Result<MailList, MailError>)
      requires Valid()
      ensures r.Failure? <==> mails == null
      ensures r.Failure? ==> r.error == NullPointer
      ensures r.Success? ==>
                fresh(r.value) && NoNulls(r.value.elems) &&
                (forall k :: 0 <= k < |r.value.elems| ==> fresh(r.value.elems[k])) &&
                Addresses() == Some(AddressesOf(r.value.elems))
    {
      if mails == null {
        return Failure(NullPointer);
      }
      var copiedList, copies := CopyOf(mails.elems);
      r := Success(copiedList);
    }
  }

  /** A caller changing an `EMail` that is not part of the object's state leaves the stored addresses as they were. */
  method SetAddressOutside(user: DeepCopy, e: EMail, address: string)
    requires user.Valid() && e !in user.Repr
    modifies e
    ensures e.address == address
    ensures user.Valid() && user.Addresses() == old(user.Addresses())
  {
    e.SetAddress(address);
  }

  /** A caller adding to a list that is not part of the object's state leaves the stored addresses as they were. */
  method AddOutside(user: DeepCopy, list: MailList, e: EMail?)
    requires user.Valid() && list !in user.Repr
    modifies list
    ensures list.elems == old(list.elems) + [e]
    ensures user.Valid() && user.Addresses() == old(user.Addresses())
  {
    list.Add(e);
  }

  /** The two addresses the example's `main` puts in its list. */
  const DemoAddresses: seq<string> := ["test@example.com", "user@example.com"]

  /** Two `EMail`s in a fresh list, as the example's `main` builds them. */
  method DemoList() returns (emailList: MailList, first: EMail, second: EMail)
    ensures fresh(emailList) && fresh(first) && fresh(second)
    ensures emailList.elems == [first, second]
    ensures NoNulls(emailList.elems) && AddressesOf(emailList.elems) == DemoAddresses
  {
    emailList := new MailList();
    first := new EMail(DemoAddresses[0]);
    second := new EMail(DemoAddresses[1]);
    emailList.Add(first);
    emailList.Add(second);
    assert AddressesOf(emailList.elems) == [first.address, second.address];
  }

  /** The start of `main`: a new object given the two-address list, which stays the caller's. */
  method DemoUser() returns (user: DeepCopy, emailList: MailList, first: EMail)
    ensures fresh(user) && user.Valid() && user.Addresses() == Some(DemoAddresses)
    ensures fresh(emailList) && fresh(first) && emailList !in user.Repr && first !in user.Repr
  {
    user := new DeepCopy();
    var second;
    emailList, first, second := DemoList();
    var _ := user.SetMails(emailList);
  }

  /**
   * The example's `main`: two addresses are set, the list got back is extended
   * by a third, and the object still reports two while the caller's list has three.
   */
  method MainDemo() returns (internalSize: nat, externalSize: nat)
    ensures internalSize == 2 && externalSize == 3
  {
    var user, emailList, first := DemoUser();
    var got := user.GetMails();
    var mails := got.value;
    assert |AddressesOf(mails.elems)| == |mails.elems| == 2;
    var hacker := new EMail("hacker@example.com");
    AddOutside(user, mails, hacker);
    var again := user.GetMails();
    assert |AddressesOf(again.value.elems)| == |again.value.elems| == 2;
    internalSize := |again.value.elems|;
    externalSize := |mails.elems|;
  }

  /** Changing the caller's own `EMail`s and list after `setMails` does not reach the stored addresses. */
  method CallerChangesDemo() returns (stored: seq<string>)
    ensures stored == DemoAddresses
  {
    var user, emailList, first := DemoUser();
    SetAddressOutside(user, first, "attacker@example.com");
    var extra := new EMail("extra@example.com");
    AddOutside(user, emailList, extra);
    var got := user.GetMails();
    stored := AddressesOf(got.value.elems);
  }

  /** Changing the `EMail`s that `getMails` returned does not reach the stored addresses either. */
  method ReturnedChangesDemo() returns (stored: seq<string>)
    ensures stored == DemoAddresses
  {
    var user, emailList, first := DemoUser();
    var got := user.GetMails();
    var copy := got.value.elems[1];
    SetAddressOutside(user, copy, "attacker@example.com");
    var again := user.GetMails();
    stored := AddressesOf(again.value.elems);
  }

  /** `getMails` changes nothing: two calls in a row give different lists holding the same addresses. */
  method GetMailsTwice(user: DeepCopy) returns (first: Result<MailList, MailError>, second: Result<MailList, MailError>)
    requires user.Valid()
    ensures first.Success? <==> second.Success?
    ensures first.Success? ==>
              first.value != second.value && NoNulls(first.value.elems) && NoNulls(second.value.elems) &&
              AddressesOf(first.value.elems) == AddressesOf(second.value.elems)
  {
    first := user.GetMails();
    second := user.GetMails();
  }
}
