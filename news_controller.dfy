/**
 * The request handlers of `NewsController` (controller/news.controller.js):
 * paginated listing, creation with an image, lookup by id and owner-only
 * update, over an in-memory store of news records.
 */
module NewsStore {
  import opened Wrappers
  import Pagination
  import FileNames
  import Query

  /** A stored news record: the columns the handlers read and write. */
  datatype News = News(title: string, body: string, image: string, userId: int)

  /** One uploaded file of `req.files`: its original name, byte size and media type. */
  datatype UploadedFile = UploadedFile(name: string, size: int, mimetype: string)

  /** One message of a failed schema validation. */
  datatype FieldError = FieldError(field: string, message: string)

  /** What the schema validator makes of a request body. */
  datatype SchemaOutcome = Passed(title: string, body: string) | Failed(errors: seq<FieldError>)

  /**
   * A parsed request. `userId` is `req.user.id`; `page`, `limit` and `id` are
   * `Number(...)` of the query and path values, `None` where that is `NaN`;
   * `files` is `req.files`, `None` where it is absent.
   */
  datatype Request = Request(
    userId: int,
    page: Option<int>,
    limit: Option<int>,
    id: Option<int>,
    body: map<string, string>,
    files: Option<map<string, UploadedFile>>)

  /** The `metadata` object of a listing. */
  datatype Metadata = Metadata(totalPages: int, currentPage: int, pageLimit: int)

  /** The JSON bodies the handlers send. */
  datatype Body =
    | Message(message: string)                       // { status, message }
    | Errors(errors: seq<FieldError>)                // { errors } (no status field)
    | ImageError(image: string)                      // { status, errors: { image } }
    | Page(items: seq<News>, metadata: Metadata)     // { status, news, metadata }
    | Created(message: string, id: int, news: News)  // { status, message, news }
    | Single(id: int, news: News)                    // { status, news }

  /** What a handler does with `res`: one status and JSON body, or nothing at all. */
  datatype Response = Send(status: int, body: Body) | NoResponse

  const LIST_FAULT: string := "Something went wrong."
  const FAULT: string := "Something went wrong. Please try again."
  const IMAGE_REQUIRED: string := "Image field is required."
  const UNAUTHORIZED: string := "User is unauthorized."
  const CREATED: string := "News entry created successfully."

  /**
   * The request carries a non-empty `req.files` (the check at line 79): there
   * is some field name with a file under it.
   */
  predicate HasFiles(req: Request)
    ensures HasFiles(req) <==> req.files.Some? && exists field :: field in req.files.value
  {
    if req.files.None? then false
    else if |req.files.value| == 0 then
      assert req.files.value == map[];
      false
    else
      NonEmptyHasField(req.files.value);
      true
  }

  /** A non-empty map of files has some field. */
  lemma NonEmptyHasField(files: map<string, UploadedFile>)
    requires |files| > 0
    ensures exists field :: field in files
  {
    assert files.Keys != {};
    var field :| field in files.Keys;
  }

  /** The request carries a file under the `image` field (lines 86 and 190). */
  predicate HasImage(req: Request)
    ensures HasImage(req) ==> HasFiles(req)
  {
    req.files.Some? && "image" in req.files.value
  }

  function Image(req: Request): UploadedFile
    requires HasImage(req)
  {
    req.files.value["image"]
  }

  /** The record `createNews` inserts: the validated fields, the stored image name, the principal. */
  function NewRecord(outcome: SchemaOutcome, image: UploadedFile, token: string, userId: int): (n: News)
    requires outcome.Passed?
    ensures n.title == outcome.title && n.body == outcome.body
    ensures n.userId == userId
    ensures |n.image| > |token| && n.image[..|token|] == token && n.image[|token|] == FileNames.DOT
    ensures n.image[|token| + 1..] == FileNames.Extension(image.name)
  {
    News(outcome.title, outcome.body, FileNames.StoredName(token, image.name), userId)
  }

  /** Every check of `createNews` passes, in the order the handler runs them. */
  predicate CreateAccepted(
    req: Request,
    validate: map<string, string> -> SchemaOutcome,
    imageValidator: (int, string) -> Option<string>)
    ensures CreateAccepted(req, validate, imageValidator) ==> HasFiles(req)
  {
    && validate(req.body).Passed?
    && HasImage(req)
    && imageValidator(Image(req).size, Image(req).mimetype).None?
  }

  /** The columns an update writes; `None` leaves a column as it is. */
  datatype Patch = Patch(title: Option<string>, body: Option<string>, image: Option<string>)

  function ApplyPatch(n: News, p: Patch): (r: News)
    ensures r.userId == n.userId
    ensures p == Patch(None, None, None) ==> r == n
    ensures (p.title.None? || r.title == p.title.value) && (p.body.None? || r.body == p.body.value)
    ensures p.image.None? || r.image == p.image.value
    ensures p.title.None? ==> r.title == n.title
    ensures p.body.None? ==> r.body == n.body
    ensures p.image.None? ==> r.image == n.image
  {
    News(
      if p.title.Some? then p.title.value else n.title,
      if p.body.Some? then p.body.value else n.body,
      if p.image.Some? then p.image.value else n.image,
      n.userId)
  }

  /** The records of a store in ascending id order, the order of the listing query. */
  function InIdOrder(store: map<int, News>): (rows: seq<News>)
    ensures |rows| == |store|
    ensures forall i :: 0 <= i < |rows| ==>
      var ids := Query.SortedIds(store.Keys); ids[i] in store && rows[i] == store[ids[i]]
  {
    var ids := Query.SortedIds(store.Keys);
    seq(|ids|, i requires 0 <= i < |ids| => store[ids[i]])
  }

  /**
   * The `take: limit, skip: skip` query over the records in id order: at most
   * `take` records, the ones at positions `skip`, `skip + 1`, ... of that order.
   */
  function ListPage(store: map<int, News>, skip: nat, take: nat): (items: seq<News>)
    ensures |items| <= take
    ensures skip >= |store| ==> items == []
    ensures skip < |store| ==> |items| == if skip + take <= |store| then take else |store| - skip
    ensures forall i :: 0 <= i < |items| ==> skip + i < |store| && items[i] == InIdOrder(store)[skip + i]
  {
    Query.Window(InIdOrder(store), skip, take)
  }

  /**
   * The handlers over the store. `store` maps ids to records and `nextId` is
   * the id the store assigns to the next record it inserts.
   */
  class NewsController {
    var store: map<int, News>
    var nextId: int

    ghost predicate Valid()
      reads this
    {
      forall id :: id in store ==> id < nextId
    }

    constructor (initial: map<int, News>, next: int)
      requires forall id :: id in initial ==> id < next
      ensures Valid()
      ensures store == initial && nextId == next
    {
      store := initial;
      nextId := next;
    }

    /**
     * `getNews` (lines 13-67): the page of records `skip`..`skip + limit` in id
     * order with its metadata, or 500 when the pagination guards throw.
     * `ListingOfGetNews` states what the listing holds.
     */
    function GetNews(req: Request): (r: Response)
      reads this
      ensures r.Send?
      ensures r.status == 200 <==> Pagination.PageAccepted(req.page) && Pagination.LimitAccepted(req.limit)
      ensures r.status != 200 ==> r == Send(500, Message(LIST_FAULT))
      ensures r.status == 200 ==>
        var p := Pagination.Paginate(req.page, req.limit, |store|).value;
        r.body == Page(ListPage(store, p.skip, p.limit), Metadata(p.totalPages, p.page, p.limit))
    {
      var paging := Pagination.Paginate(req.page, req.limit, |store|);
      if paging.Failure? then Send(500, Message(LIST_FAULT))
      else
        var p := paging.value;
        Send(200, Page(ListPage(store, p.skip, p.limit), Metadata(p.totalPages, p.page, p.limit)))
    }

    /**
     * `getNewsById` (lines 134-164) when the record exists: 200 with that
     * record. For a missing record the answer depends on the transformer and
     * is left open (`None`).
     */
    function GetNewsById(rawId: Option<int>): (r: Option<Response>)
      reads this
      ensures r.Some? <==> rawId.Some? && rawId.value in store
      ensures r.Some? ==> r.value == Send(200, Single(rawId.value, store[rawId.value]))
    {
      if rawId.Some? && rawId.value in store then Some(Send(200, Single(rawId.value, store[rawId.value])))
      else None
    }

    /**
     * `createNews` (lines 70-132). The checks run in order: schema, a
     * non-empty `req.files`, the `image` field, `imageValidator`; each
     * rejection leaves the store as it was. On success the record stamped
     * with the principal's id is inserted under a fresh id and returned with 201.
     */
    method CreateNews(
      req: Request,
      validate: map<string, string> -> SchemaOutcome,
      imageValidator: (int, string) -> Option<string>,
      token: string)
      returns (r: Response)
      requires Valid()
      modifies this
      ensures Valid()
      ensures validate(req.body).Failed? ==> r == Send(400, Errors(validate(req.body).errors))
      ensures validate(req.body).Passed? && !HasFiles(req) ==> r == Send(400, Message(IMAGE_REQUIRED))
      ensures validate(req.body).Passed? && HasFiles(req) && !HasImage(req) ==> r == Send(500, Message(FAULT))
      ensures (validate(req.body).Passed? && HasFiles(req) && HasImage(req)
               && imageValidator(Image(req).size, Image(req).mimetype).Some?) ==>
          r == Send(400, ImageError(imageValidator(Image(req).size, Image(req).mimetype).value))
      ensures !CreateAccepted(req, validate, imageValidator) ==>
        store == old(store) && nextId == old(nextId) && r.Send? && r.status != 201
      ensures CreateAccepted(req, validate, imageValidator) ==>
        var n := NewRecord(validate(req.body), Image(req), token, req.userId);
        && old(nextId) !in old(store)
        && store == old(store)[old(nextId) := n]
        && nextId == old(nextId) + 1
        && r == Send(201, Created(CREATED, old(nextId), n))
        && GetNewsById(Some(old(nextId))) == Some(Send(200, Single(old(nextId), n)))
    {
      // lines 75-76; a failed validation is caught at lines 123-124
      var outcome := validate(req.body);
      if outcome.Failed? {
        return Send(400, Errors(outcome.errors));
      }
      // lines 79-83
      if req.files.None? || |req.files.value| == 0 {
        return Send(400, Message(IMAGE_REQUIRED));
      }
      // line 86: without an `image` field `image` is undefined and line 89 throws a TypeError
      if "image" !in req.files.value {
        return Send(500, Message(FAULT));
      }
      var image := req.files.value["image"];
      // lines 89-95
      var imageError := imageValidator(image.size, image.mimetype);
      if imageError.Some? {
        return Send(400, ImageError(imageError.value));
      }
      // lines 98-120
      var n := NewRecord(outcome, image, token, req.userId);
      var id := nextId;
      store := store[id := n];
      nextId := nextId + 1;
      r := Send(201, Created(CREATED, id, n));
    }

    /**
     * `updateNews` (lines 166-232). A missing record is a null dereference
     * (500); a principal other than the owner gets 400 before anything else
     * runs; an invalid image gets 400; a valid image reaches the undefined
     * `removeImage` (500); otherwise the update is issued and nothing is sent.
     * The payload is the un-awaited validation promise, so the update carries
     * no validated column: in every case the store keeps its records.
     */
    method UpdateNews(
      req: Request,
      imageValidator: (int, string) -> Option<string>,
      storedName: string)
      returns (r: Response)
      requires Valid()
      modifies this
      ensures Valid()
      ensures store == old(store) && nextId == old(nextId)
      ensures req.id.None? || req.id.value !in store ==> r == Send(500, Message(FAULT))
      ensures req.id.Some? && req.id.value in store && req.userId != store[req.id.value].userId ==>
        r == Send(400, Message(UNAUTHORIZED))
      ensures req.id.Some? && req.id.value in store && req.userId == store[req.id.value].userId ==>
        if !HasImage(req) then r == NoResponse
        else if imageValidator(Image(req).size, Image(req).mimetype).Some? then
          r == Send(400, ImageError(imageValidator(Image(req).size, Image(req).mimetype).value))
        else r == Send(500, Message(FAULT))
    {
      // lines 173-177, 180: a missing record makes `news.user_id` throw
      if req.id.None? || req.id.value !in store {
        return Send(500, Message(FAULT));
      }
      var id := req.id.value;
      var news := store[id];
      // lines 180-184
      if req.userId != news.userId {
        return Send(400, Message(UNAUTHORIZED));
      }
      // lines 187-188: the validation promise is not awaited, so `payload`
      // holds none of the validated fields
      var payload := Patch(None, None, None);
      // lines 190-212
      if HasImage(req) {
        var image := req.files.value["image"];
        var imageError := imageValidator(image.size, image.mimetype);
        if imageError.Some? {
          return Send(400, ImageError(imageError.value));
        }
        payload := payload.(image := Some(storedName));
        // line 211: `removeImage` is not defined, so the call throws a ReferenceError
        return Send(500, Message(FAULT));
      }
      // lines 216-221: the update writes the payload's columns and no response follows
      store := store[id := ApplyPatch(news, payload)];
      assert store == old(store);
      r := NoResponse;
    }
  }

  /**
   * What a successful `getNews` lists: metadata that agrees with the
   * pagination, at most `limit` records, and exactly the records at positions
   * `skip`, `skip + 1`, ... of the id order, as many as remain up to `limit`.
   */
  lemma ListingOfGetNews(c: NewsController, req: Request)
    requires c.GetNews(req).status == 200
    ensures c.GetNews(req).body.Page?
    ensures
      var m := c.GetNews(req).body.metadata;
      var items := c.GetNews(req).body.items;
      var skip := (m.currentPage - 1) * m.pageLimit;
      && m.currentPage == Pagination.OrOne(req.page) >= 1
      && m.pageLimit == Pagination.OrOne(req.limit)
      && 1 <= m.pageLimit <= Pagination.MAX_LIMIT
      && |c.store| <= m.totalPages * m.pageLimit
      && (m.totalPages - 1) * m.pageLimit < |c.store|
      && |items| <= m.pageLimit
      && (skip >= |c.store| ==> items == [])
      && (skip < |c.store| ==> |items| == if skip + m.pageLimit <= |c.store| then m.pageLimit else |c.store| - skip)
      && forall i :: 0 <= i < |items| ==> skip + i < |c.store| && items[i] == InIdOrder(c.store)[skip + i]
  {
    var p := Pagination.Paginate(req.page, req.limit, |c.store|).value;
    var r := c.GetNews(req);
    assert r.body == Page(ListPage(c.store, p.skip, p.limit), Metadata(p.totalPages, p.page, p.limit));
    assert (r.body.metadata.currentPage - 1) * r.body.metadata.pageLimit == p.skip;
  }

  /**
   * Paging through the listing reaches every stored record: the record at
   * position `i` of the id order is item `i % limit` of page `i / limit + 1`,
   * and that page is within `totalPages`.
   */
  lemma EveryRecordOnItsPage(c: NewsController, req: Request, i: nat)
    requires i < |c.store|
    requires req.limit.Some? && 1 <= req.limit.value <= Pagination.MAX_LIMIT
    requires req.page == Some(i / req.limit.value + 1)
    ensures c.GetNews(req).status == 200
    ensures c.GetNews(req).body.metadata.currentPage <= c.GetNews(req).body.metadata.totalPages
    ensures i % req.limit.value < |c.GetNews(req).body.items|
    ensures c.GetNews(req).body.items[i % req.limit.value] == InIdOrder(c.store)[i]
  {
    var l := req.limit.value;
    var q := i / l;
    var m := i % l;
    Pagination.DivBounds(i, l);
    assert i == q * l + m;
    Pagination.PageOfPosition(|c.store|, l, i);
    ListingOfGetNews(c, req);
    var r := c.GetNews(req);
    var meta := r.body.metadata;
    assert meta.currentPage == q + 1 && meta.pageLimit == l;
    var skip := (meta.currentPage - 1) * l;
    assert skip == q * l;
    assert skip <= i < |c.store|;
    assert m < |r.body.items|;
  }
}
