/** The records of the account store: Django's `User` (only the fields the
    views touch) and the `GraphicalPassword` model, which belongs one-to-one
    to a user. */
module Models {

  /** A user account. `password` is the encoded primary password that the
      framework stores; it is opaque to the graphical-password scheme. */
  datatype User = User(username: string, email: string, password: string)

  /** One graphical-password record. `owner` is the username of the user it
      belongs to (the one-to-one `user` link); timestamps are clock readings. */
  datatype GraphicalPassword = GraphicalPassword(
    owner: string,
    imageSequenceHash: string,
    salt: string,
    createdAt: int,
    updatedAt: int)

  /** Declared column widths: `max_length=128` for the hash, 32 for the salt. */
  const HashColumnWidth: nat := 128
  const SaltColumnWidth: nat := 32

  /** The record fits the columns it is stored in. */
  predicate FitsColumns(gp: GraphicalPassword) {
    |gp.imageSequenceHash| <= HashColumnWidth && |gp.salt| <= SaltColumnWidth
  }

  /** `GraphicalPassword.objects.create(...)` at clock reading `now`:
      `auto_now_add` and `auto_now` both stamp the creation time. */
  function Created(owner: string, hash: string, salt: string, now: int): (gp: GraphicalPassword)
    ensures gp.owner == owner && gp.imageSequenceHash == hash && gp.salt == salt
    ensures gp.createdAt == gp.updatedAt == now
    ensures FitsColumns(gp) <==> |hash| <= HashColumnWidth && |salt| <= SaltColumnWidth
  {
    GraphicalPassword(owner, hash, salt, now, now)
  }

  /** `save()` at clock reading `now`: only the `auto_now` stamp moves. */
  function Saved(gp: GraphicalPassword, now: int): (r: GraphicalPassword)
    ensures r.updatedAt == now && r.createdAt == gp.createdAt
    ensures r.owner == gp.owner && r.imageSequenceHash == gp.imageSequenceHash && r.salt == gp.salt
  {
    gp.(updatedAt := now)
  }

  /** The record after one `save()` per clock reading in `times`, in order. */
  function SavedAt(gp: GraphicalPassword, times: seq<int>): GraphicalPassword
    decreases |times|
  {
    if times == [] then gp else SavedAt(Saved(gp, times[0]), times[1..])
  }

  /** However many times a record is saved, its creation stamp and its data
      stay as they were, and its update stamp is the time of the last save. */
  lemma {:induction false} SavesKeepCreation(gp: GraphicalPassword, times: seq<int>)
    ensures var r := SavedAt(gp, times);
      && r.createdAt == gp.createdAt
      && r.owner == gp.owner
      && r.imageSequenceHash == gp.imageSequenceHash
      && r.salt == gp.salt
      && r.updatedAt == (if times == [] then gp.updatedAt else times[|times| - 1])
    decreases |times|
  {
    if times != [] {
      SavesKeepCreation(Saved(gp, times[0]), times[1..]);
    }
  }

  const DescriptionPrefix: string := "Graphical Password for "

  /** `GraphicalPassword.__str__`. */
  function Describe(gp: GraphicalPassword): (text: string)
    ensures |text| == |DescriptionPrefix| + |gp.owner|
    ensures text[..|DescriptionPrefix|] == DescriptionPrefix
  {
    DescriptionPrefix + gp.owner
  }

  /** A record's text names its owner: it starts with the fixed prefix, the
      rest is the owner's username, and two records read the same exactly
      when they belong to the same user. */
  lemma DescribeNamesOwner(a: GraphicalPassword, b: GraphicalPassword)
    ensures Describe(a)[..|DescriptionPrefix|] == DescriptionPrefix
    ensures Describe(a)[|DescriptionPrefix|..] == a.owner
    ensures Describe(a) == Describe(b) <==> a.owner == b.owner
  {
    if Describe(a) == Describe(b) {
      assert a.owner == Describe(a)[|DescriptionPrefix|..];
      assert b.owner == Describe(b)[|DescriptionPrefix|..];
    }
  }
}
