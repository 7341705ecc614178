/** `UserPersistenceService` over an in-memory `user` table: the table is a sequence of rows
    in repository order, the database's id generator is a parameter. */
module UserPersistenceService {
  import opened Wrappers
  import opened Catalog
  import opened Errors
  import opened Enums
  import opened Users
  import opened CustomPage
  import ToEntity = UserCommandToUserEntityConverter
  import ToCommand = UserEntityToUserCommandConverter
  import ConversionService

  type Store = seq<UserEntity>

  predicate HasId(store: Store, id: int) {
    exists i :: 0 <= i < |store| && store[i].id == Some(id)
  }

  /** The primary key of the `user` table: every row has an id and no two rows share one. */
  predicate Keyed(store: Store) {
    && (forall i :: 0 <= i < |store| ==> store[i].id.Some?)
    && (forall i, j :: 0 <= i < j < |store| ==> store[i].id != store[j].id)
  }

  /** `template.insert(UserEntity.class).using(row)`: a row without an id receives the
      generated one; a row whose id is taken is refused by the primary key. */
  function Insert(store: Store, row: UserEntity, generated: int): (r: Result<(Store, UserEntity), Error>)
    requires row.id.None? ==> !HasId(store, generated)
    ensures r.Err? <==> row.id.Some? && HasId(store, row.id.value)
    ensures r.Err? ==> r.error == DataIntegrityViolationException
    ensures r.Ok? ==>
      && r.value.0 == store + [r.value.1]
      && r.value.1 == row.(id := r.value.1.id)
      && r.value.1.id == (if row.id.Some? then row.id else Some(generated))
    ensures r.Ok? && Keyed(store) ==> Keyed(r.value.0)
  {
    var id := if row.id.Some? then row.id.value else generated;
    if HasId(store, id) then Err(DataIntegrityViolationException)
    else
      var inserted := row.(id := Some(id));
      assert forall i :: 0 <= i < |store| ==> store[i].id != inserted.id;
      Ok((store + [inserted], inserted))
  }

  /** `save`: stores the command's entity and hands back the same command carrying the id
      of the inserted row. */
  function Save(enums: UserEnums, store: Store, cmd: UserCommand, generated: int): (r: Result<(Store, UserCommand), Error>)
    requires ValidCommand(enums, cmd)
    requires cmd.id.None? ==> !HasId(store, generated)
    ensures r.Err? <==> cmd.id.Some? && HasId(store, cmd.id.value)
    ensures r.Err? ==> r.error == DataIntegrityViolationException
    ensures r.Ok? ==>
      && r.value.1 == cmd.(id := r.value.1.id)
      && r.value.1.id == (if cmd.id.Some? then cmd.id else Some(generated))
      && ValidCommand(enums, r.value.1)
      && r.value.0 == store + [ToEntity.Convert(enums, r.value.1)]
    ensures r.Ok? && Keyed(store) ==> Keyed(r.value.0)
  {
    var ins :- Insert(store, ToEntity.Convert(enums, cmd), generated);
    Ok((ins.0, cmd.(id := ins.1.id)))
  }

  /** The rows whose id is `id`, in repository order. */
  function Matching(store: Store, id: int): (r: seq<UserEntity>)
    ensures |r| <= |store|
    ensures forall k :: 0 <= k < |r| ==> r[k].id == Some(id) && r[k] in store
    ensures |r| == 0 <==> !HasId(store, id)
  {
    if store == [] then []
    else
      var init := store[..|store| - 1];
      var last := store[|store| - 1];
      assert forall i :: 0 <= i < |init| ==> init[i] == store[i];
      Matching(init, id) + (if last.id == Some(id) then [last] else [])
  }

  /** Under the primary key an id matches at most one row. */
  lemma {:induction false} KeyedMatchesAtMostOne(store: Store, id: int)
    requires Keyed(store)
    ensures |Matching(store, id)| <= 1
  {
    if store != [] {
      var init := store[..|store| - 1];
      var last := store[|store| - 1];
      assert forall i :: 0 <= i < |init| ==> init[i] == store[i];
      KeyedMatchesAtMostOne(init, id);
      if last.id == Some(id) {
        assert !HasId(init, id);
      }
    }
  }

  /** `findById`: `one()` of the rows with that id, converted to a command; `one()`
      refuses more than one row. */
  function FindById(enums: UserEnums, store: Store, id: int): (r: Result<Option<UserCommand>, Error>)
    ensures r == Ok(None) <==> !HasId(store, id)
    ensures r.Ok? && r.value.Some? ==>
      && r.value.value.id == Some(id)
      && ValidCommand(enums, r.value.value)
      && exists i :: 0 <= i < |store| && ToCommand.Convert(enums, store[i]) == Ok(r.value.value)
    ensures r.Err? ==> r.error in {IncorrectResultSizeException, ConversionService.EnumConversionFailed}
    ensures Keyed(store) ==> r != Err(IncorrectResultSizeException)
  {
    var m := Matching(store, id);
    assert Keyed(store) ==> |m| <= 1 by {
      if Keyed(store) { KeyedMatchesAtMostOne(store, id); }
    }
    if |m| == 0 then Ok(None)
    else if |m| > 1 then Err(IncorrectResultSizeException)
    else
      var c :- ConversionService.Convert(ToCommand.Convert(enums, m[0]));
      Ok(Some(c))
  }

  /** Under the primary key, the row holding the id is what `findById` converts: a row
      that converts is found, and one that does not fails the lookup. */
  lemma FindByIdFinds(enums: UserEnums, store: Store, id: int, i: int)
    requires Keyed(store) && 0 <= i < |store| && store[i].id == Some(id)
    ensures ToCommand.Convert(enums, store[i]).Ok? ==>
      FindById(enums, store, id) == Ok(Some(ToCommand.Convert(enums, store[i]).value))
    ensures ToCommand.Convert(enums, store[i]).Err? ==>
      FindById(enums, store, id) == Err(ConversionService.EnumConversionFailed)
  {
  }

  /** A command saved without an id is found again under the generated id. */
  lemma SaveThenFind(enums: UserEnums, store: Store, cmd: UserCommand, generated: int)
    requires enums.WellFormed() && Keyed(store) && ValidCommand(enums, cmd)
    requires cmd.id.None? && !HasId(store, generated)
    ensures Save(enums, store, cmd, generated).Ok?
    ensures var saved := Save(enums, store, cmd, generated).value;
      FindById(enums, saved.0, generated) == Ok(Some(saved.1))
  {
  }

  /** The rows of one page: `skip(skip).take(size)` over the repository order. */
  function Window(store: Store, skip: nat, size: nat): (r: seq<UserEntity>)
    ensures |r| <= size
    ensures |r| == if skip >= |store| then 0 else if |store| - skip < size then |store| - skip else size
    ensures forall k :: 0 <= k < |r| ==> r[k] == store[skip + k]
  {
    if skip >= |store| then []
    else if |store| - skip < size then store[skip..]
    else store[skip..skip + size]
  }

  /** Each row converted in order through the conversion service; the first row that does
      not convert fails the list. */
  function ConvertAll(enums: UserEnums, rows: seq<UserEntity>): (r: Result<seq<UserCommand>, Error>)
    ensures r.Ok? <==> forall k :: 0 <= k < |rows| ==> ToCommand.Convert(enums, rows[k]).Ok?
    ensures r.Ok? ==>
      && |r.value| == |rows|
      && forall k :: 0 <= k < |rows| ==> ToCommand.Convert(enums, rows[k]) == Ok(r.value[k])
    ensures r.Err? ==> r.error == ConversionService.EnumConversionFailed
  {
    if rows == [] then Ok([])
    else
      var head :- ConversionService.Convert(ToCommand.Convert(enums, rows[0]));
      var tail :- ConvertAll(enums, rows[1..]);
      Ok([head] + tail)
  }

  /** `PageRequest`: a page number and a page size. */
  datatype Pageable = Pageable(pageNumber: nat, pageSize: nat)

  /** The page assembled by `findAll` once the number of rows to skip is known. */
  function PageFrom(enums: UserEnums, store: Store, p: Pageable, skip: nat): (r: Result<CustomPage<UserCommand>, Error>)
    ensures r.Ok? <==>
      forall k :: 0 <= k < |Window(store, skip, p.pageSize)| ==>
        ToCommand.Convert(enums, Window(store, skip, p.pageSize)[k]).Ok?
    ensures r.Err? ==> r.error == ConversionService.EnumConversionFailed
    ensures r.Ok? ==>
      && r.value.number == p.pageNumber
      && r.value.totalElements == |store|
      && r.value.size == |r.value.content| <= p.pageSize
      && |r.value.content| == |Window(store, skip, p.pageSize)|
      && forall k :: 0 <= k < |r.value.content| ==>
           ToCommand.Convert(enums, store[skip + k]) == Ok(r.value.content[k])
  {
    var content :- ConvertAll(enums, Window(store, skip, p.pageSize));
    Ok(CustomPage(content, p.pageNumber, |content|, |store|))
  }

  /** The skip `findAll` computes: none for page 1, `page * size` for every other page. */
  function Skip(p: Pageable): (r: nat)
    ensures p.pageNumber <= 1 ==> r == 0
    ensures p.pageNumber >= 2 ==> r >= 2 * p.pageSize
  {
    if p.pageNumber == 1 then 0 else p.pageNumber * p.pageSize
  }

  /** `findAll` as written, with `Skip`. */
  function FindAllAsWritten(enums: UserEnums, store: Store, p: Pageable): (r: Result<CustomPage<UserCommand>, Error>)
    ensures r.Ok? <==> forall k :: 0 <= k < |Window(store, Skip(p), p.pageSize)| ==>
                         ToCommand.Convert(enums, Window(store, Skip(p), p.pageSize)[k]).Ok?
    ensures r.Err? ==> r.error == ConversionService.EnumConversionFailed
    ensures r.Ok? ==>
      && r.value.number == p.pageNumber
      && r.value.totalElements == |store|
      && r.value.size == |r.value.content| <= p.pageSize
      && |r.value.content| == |Window(store, Skip(p), p.pageSize)|
      && forall k :: 0 <= k < |r.value.content| ==>
           ToCommand.Convert(enums, store[Skip(p) + k]) == Ok(r.value.content[k])
  {
    PageFrom(enums, store, p, Skip(p))
  }

  /** Whether a page starting at row `skip` with `size` rows lists row `k` of a long enough table. */
  predicate Lists(skip: nat, size: nat, k: nat) {
    skip <= k < skip + size
  }

  /** Pages 0 and 1 are the same page. */
  lemma FirstPageTwice(size: nat)
    ensures Skip(Pageable(0, size)) == 0 && Skip(Pageable(1, size)) == 0
  {
  }

  /** No page starts at row `size`, and rows `size` to `2 * size - 1` are on no page at all. */
  lemma MiddleRowsNeverListed(n: nat, size: nat, k: nat)
    requires size <= k < 2 * size
    ensures Skip(Pageable(n, size)) != size
    ensures !Lists(Skip(Pageable(n, size)), size, k)
  {
  }

  /** A concrete table: with page size 1 over three rows, row 1 appears on none of pages 0 to 9. */
  lemma SecondRowLost(enums: UserEnums, store: Store)
    requires |store| == 3 && Keyed(store)
    requires forall k :: 0 <= k < 3 ==> ToCommand.Convert(enums, store[k]).Ok?
    ensures forall n: nat :: n < 10 ==>
      FindAllAsWritten(enums, store, Pageable(n, 1)).Ok? &&
      FindAllAsWritten(enums, store, Pageable(n, 1)).value.content !=
        [ToCommand.Convert(enums, store[1]).value]
  {
  }

  lemma MulMonotone(a: nat, b: nat, c: nat)
    requires a >= b
    ensures a * c >= b * c
  {
  }

  /** The skip of a one-based page: page `n` starts after `n - 1` full pages; page 0 is
      read as page 1. */
  function IntendedSkip(p: Pageable): (r: nat)
    ensures p.pageNumber <= 1 ==> r == 0
    ensures p.pageNumber >= 1 ==> r + p.pageSize == p.pageNumber * p.pageSize
  {
    if p.pageNumber <= 1 then 0 else (p.pageNumber - 1) * p.pageSize
  }

  /** With the intended skip every row is listed by exactly one page number from 1 on. */
  lemma IntendedPagesPartition(size: nat, k: nat, n: nat)
    requires size > 0 && n >= 1
    ensures Lists(IntendedSkip(Pageable(k / size + 1, size)), size, k)
    ensures Lists(IntendedSkip(Pageable(n, size)), size, k) <==> n == k / size + 1
  {
    var q := k / size;
    assert q * size <= k < q * size + size;
    assert IntendedSkip(Pageable(q + 1, size)) == q * size;
    if Lists(IntendedSkip(Pageable(n, size)), size, k) {
      var m := n - 1;
      assert IntendedSkip(Pageable(n, size)) == m * size;
      if m < q {
        MulMonotone(q, m + 1, size);
        assert false;
      } else if m > q {
        MulMonotone(m, q + 1, size);
        assert false;
      }
    }
  }

  /** `findAll` with the one-based skip. */
  function FindAll(enums: UserEnums, store: Store, p: Pageable): (r: Result<CustomPage<UserCommand>, Error>)
    ensures r.Ok? <==> forall k :: 0 <= k < |Window(store, IntendedSkip(p), p.pageSize)| ==>
                         ToCommand.Convert(enums, Window(store, IntendedSkip(p), p.pageSize)[k]).Ok?
    ensures r.Err? ==> r.error == ConversionService.EnumConversionFailed
    ensures r.Ok? ==>
      && r.value.number == p.pageNumber
      && r.value.totalElements == |store|
      && r.value.size == |r.value.content| <= p.pageSize
      && |r.value.content| == |Window(store, IntendedSkip(p), p.pageSize)|
      && forall k :: 0 <= k < |r.value.content| ==>
           ToCommand.Convert(enums, store[IntendedSkip(p) + k]) == Ok(r.value.content[k])
  {
    PageFrom(enums, store, p, IntendedSkip(p))
  }

  /** `delete` as written: the `deleteById` publisher is built but never subscribed to, so
      the table is left as it was. */
  function DeleteAsWritten(store: Store, id: int): (r: Store)
    ensures |r| == |store|
    ensures HasId(r, id) <==> HasId(store, id)
  {
    store
  }

  /** The user a delete was asked to remove is still found afterwards. */
  lemma DeletedUserStillFound(enums: UserEnums, store: Store, id: int)
    requires FindById(enums, store, id).Ok? && FindById(enums, store, id).value.Some?
    ensures FindById(enums, DeleteAsWritten(store, id), id) == FindById(enums, store, id)
    ensures FindById(enums, DeleteAsWritten(store, id), id).value.Some?
  {
  }

  /** `deleteById` once subscribed: every row with that id goes, the rest keep their order. */
  function Delete(store: Store, id: int): (r: Store)
    ensures |r| <= |store|
    ensures forall k :: 0 <= k < |r| ==> r[k].id != Some(id) && r[k] in store
    ensures forall i :: 0 <= i < |store| && store[i].id != Some(id) ==> store[i] in r
  {
    if store == [] then []
    else
      var init := store[..|store| - 1];
      var last := store[|store| - 1];
      assert forall i :: 0 <= i < |init| ==> init[i] == store[i];
      Delete(init, id) + (if last.id == Some(id) then [] else [last])
  }

  /** The corrected delete touches no other id's rows. */
  lemma {:induction false} DeleteKeepsOthers(store: Store, id: int, other: int)
    requires other != id
    ensures Matching(Delete(store, id), other) == Matching(store, other)
  {
    if store != [] {
      var init := store[..|store| - 1];
      var last := store[|store| - 1];
      var r := Delete(store, id);
      var kept := Delete(init, id);
      DeleteKeepsOthers(init, id, other);
      assert Matching(store, other) == Matching(init, other) + (if last.id == Some(other) then [last] else []);
      if last.id != Some(id) {
        assert r == kept + [last];
        assert r[..|r| - 1] == kept;
        assert Matching(r, other) == Matching(kept, other) + (if last.id == Some(other) then [last] else []);
      } else {
        assert r == kept;
      }
    }
  }

  lemma DeleteKeepsAllOthers(store: Store, id: int)
    ensures forall other :: other != id ==> Matching(Delete(store, id), other) == Matching(store, other)
  {
    forall other | other != id
      ensures Matching(Delete(store, id), other) == Matching(store, other)
    {
      DeleteKeepsOthers(store, id, other);
    }
  }

  /** The corrected delete keeps the primary key. */
  lemma {:induction false} DeleteKeyed(store: Store, id: int)
    requires Keyed(store)
    ensures Keyed(Delete(store, id))
  {
    if store != [] {
      var init := store[..|store| - 1];
      var last := store[|store| - 1];
      assert forall i :: 0 <= i < |init| ==> init[i] == store[i];
      DeleteKeyed(init, id);
      var kept := Delete(init, id);
      if last.id != Some(id) {
        forall i | 0 <= i < |kept|
          ensures kept[i].id != last.id
        {
          var j :| 0 <= j < |init| && init[j] == kept[i];
        }
      }
    }
  }

  /** After the corrected delete the user is gone. */
  lemma DeleteThenFind(enums: UserEnums, store: Store, id: int)
    ensures FindById(enums, Delete(store, id), id) == Ok(None)
  {
  }

  /** The save an update needs: the row with the command's id is overwritten in place. */
  function Replace(store: Store, row: UserEntity): (r: Store)
    requires row.id.Some?
    ensures |r| == |store|
    ensures forall i :: 0 <= i < |store| ==> r[i] == if store[i].id == row.id then row else store[i]
    ensures Keyed(store) ==> Keyed(r)
  {
    seq(|store|, i requires 0 <= i < |store| => if store[i].id == row.id then row else store[i])
  }

  /** `save` as an update should perform it: the command's row is replaced, not inserted. */
  function SaveExisting(enums: UserEnums, store: Store, cmd: UserCommand): (r: (Store, UserCommand))
    requires ValidCommand(enums, cmd) && cmd.id.Some?
    ensures r.1 == cmd && |r.0| == |store|
    ensures Keyed(store) ==> Keyed(r.0)
  {
    (Replace(store, ToEntity.Convert(enums, cmd)), cmd)
  }

  /** An update is read back as written, and no other id's rows change. */
  lemma SaveExistingThenFind(enums: UserEnums, store: Store, cmd: UserCommand, other: int)
    requires enums.WellFormed() && Keyed(store) && ValidCommand(enums, cmd)
    requires cmd.id.Some? && HasId(store, cmd.id.value)
    ensures FindById(enums, SaveExisting(enums, store, cmd).0, cmd.id.value) == Ok(Some(cmd))
    ensures other != cmd.id.value ==>
      Matching(SaveExisting(enums, store, cmd).0, other) == Matching(store, other)
  {
    var row := ToEntity.Convert(enums, cmd);
    var after := SaveExisting(enums, store, cmd).0;
    ReplaceMatching(store, row, cmd.id.value);
    ReplaceMatching(store, row, other);
    assert HasId(after, cmd.id.value) by {
      var i :| 0 <= i < |store| && store[i].id == Some(cmd.id.value);
      assert after[i] == row;
    }
    KeyedMatchesAtMostOne(after, cmd.id.value);
    var m := Matching(after, cmd.id.value);
    assert |m| == 1 && m[0] == row;
    ToEntity.CommandRoundTrip(enums, cmd);
  }

  /** Replacing the row with id `row.id` changes what matches that id to the row itself and
      leaves every other id's matches alone. */
  lemma {:induction false} ReplaceMatching(store: Store, row: UserEntity, id: int)
    requires row.id.Some?
    ensures id != row.id.value ==> Matching(Replace(store, row), id) == Matching(store, id)
    ensures id == row.id.value ==> forall k :: 0 <= k < |Matching(Replace(store, row), id)| ==>
      Matching(Replace(store, row), id)[k] == row
  {
    if store != [] {
      var init := store[..|store| - 1];
      var r := Replace(store, row);
      assert r[..|r| - 1] == Replace(init, row);
      ReplaceMatching(init, row, id);
    }
  }
}
