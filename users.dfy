/**
  The account handlers of the users controller as state transitions over
  the users and bans collections and the session registry: `create` refuses
  a banned phone, `banUser` flags the user, records the ban and revokes the
  session, `unbanUser` clears the flag and deletes the ban, and `getAll`
  lists the users that are not banned.
 */
module Users {
  import opened Models
  import opened KvStore
  import opened Auth
  import opened Funcs

  const AccountBlockedMessage := "this account has been blocked"
  const UserNotFoundMessage := "user not found"
  const BanNotFoundMessage := "ban not found"

  /** What a handler answers: a success response with its status code and
      message, or the exception it passes on to `next`. */
  datatype Reply = Success(status: int, message: string) | Failure(error: HttpException)

  /** The users and bans collections, by document id. */
  class Database {
    var users: map<string, User>
    var bans: map<string, Ban>

    /** Every ban record names an existing user, who is flagged as banned
        and owns the banned phone. */
    predicate Consistent()
      reads this
    {
      forall b :: b in bans ==>
        bans[b].user in users && users[bans[b].user].isBanned && users[bans[b].user].phone == bans[b].phone
    }

    constructor ()
      ensures users == map[] && bans == map[] && Consistent()
    {
      users, bans := map[], map[];
    }
  }

  /** `BanModel.findOne({ phone })` finds a record. */
  predicate PhoneBanned(bans: map<string, Ban>, phone: string) {
    exists b :: b in bans && bans[b].phone == phone
  }

  /** `banId` is the only ban record of the user it names. */
  predicate SoleBanOf(bans: map<string, Ban>, banId: string) {
    banId in bans && forall b :: b in bans && b != banId ==> bans[b].user != bans[banId].user
  }

  /** `create`: a banned phone is refused with Forbidden and nothing is
      stored; otherwise a user whose username is its full name is stored
      under `newId`, the id the database assigns. */
  method Create(db: Database, phone: string, fullname: string, password: string, newId: string) returns (reply: Reply)
    requires newId !in db.users
    modifies db
    ensures db.bans == old(db.bans)
    ensures PhoneBanned(db.bans, phone) ==>
      reply == Failure(Forbidden(AccountBlockedMessage)) && db.users == old(db.users)
    ensures !PhoneBanned(db.bans, phone) ==>
      && reply == Success(201, "user created successfully")
      && db.users == old(db.users)[newId := User(phone, fullname, fullname, password, false)]
    ensures old(db.Consistent()) ==> db.Consistent()
  {
    var isBanned := exists b :: b in db.bans && db.bans[b].phone == phone;
    if isBanned {
      return Failure(Forbidden(AccountBlockedMessage));
    }
    db.users := db.users[newId := User(phone, fullname, fullname, password, false)];
    reply := Success(201, "user created successfully");
  }

  /** `banUser`: an unknown user is NotFound and nothing changes; otherwise
      the user is flagged, a ban for its phone is recorded under `newBanId`,
      and its session registry entry is removed. */
  method BanUser(db: Database, redis: Redis<RedisValue>, userId: string, newBanId: string) returns (reply: Reply)
    requires newBanId !in db.bans
    modifies db, redis
    ensures userId !in old(db.users) ==>
      && reply == Failure(NotFound(UserNotFoundMessage))
      && db.users == old(db.users) && db.bans == old(db.bans)
      && redis.State() == old(redis.State())
    ensures userId in old(db.users) ==>
      var user := old(db.users)[userId];
      && reply == Success(201, "user banned successfully")
      && db.users == old(db.users)[userId := user.(isBanned := true)]
      && db.bans == old(db.bans)[newBanId := Ban(user.phone, userId)]
      && redis.State() == RemoveSession(old(redis.State()), userId)
      && PhoneBanned(db.bans, user.phone)
    ensures old(db.Consistent()) ==> db.Consistent()
  {
    if userId !in db.users {
      return Failure(NotFound(UserNotFoundMessage));
    }
    var user := db.users[userId];
    db.users := db.users[userId := user.(isBanned := true)];
    db.bans := db.bans[newBanId := Ban(user.phone, userId)];
    assert db.bans[newBanId].phone == user.phone;
    RemoveAllSession(redis, userId);
    reply := Success(201, "user banned successfully");
  }

  /** `unbanUser`: an unknown ban is NotFound and nothing changes; otherwise
      the user the ban names (if it still exists) is unflagged and the ban
      record deleted. No session is touched. Consistency survives when the
      deleted record was the user's only ban. */
  method UnbanUser(db: Database, banId: string) returns (reply: Reply)
    modifies db
    ensures banId !in old(db.bans) ==>
      reply == Failure(NotFound(BanNotFoundMessage)) && db.users == old(db.users) && db.bans == old(db.bans)
    ensures banId in old(db.bans) ==>
      var ban := old(db.bans)[banId];
      && reply == Success(200, "user unbanned successfully")
      && db.bans == old(db.bans) - {banId}
      && (ban.user in old(db.users) ==> db.users == old(db.users)[ban.user := old(db.users)[ban.user].(isBanned := false)])
      && (ban.user !in old(db.users) ==> db.users == old(db.users))
    ensures old(db.Consistent()) && SoleBanOf(old(db.bans), banId) ==> db.Consistent()
  {
    if banId !in db.bans {
      return Failure(NotFound(BanNotFoundMessage));
    }
    var ban := db.bans[banId];
    if ban.user in db.users {
      db.users := db.users[ban.user := db.users[ban.user].(isBanned := false)];
    }
    db.bans := db.bans - {banId};
    reply := Success(200, "user unbanned successfully");
  }

  /** `getAll`'s filter and its pagination: exactly the users that are not
      banned are listed, and the page count covers them all. */
  method GetAll(db: Database, page: int, limit: int) returns (listed: set<string>, pagination: PaginationData)
    requires limit > 0
    ensures forall id :: id in listed <==> id in db.users && !db.users[id].isBanned
    ensures pagination == CreatePaginationData(page, limit, |listed|)
  {
    listed := set id | id in db.users && !db.users[id].isBanned;
    pagination := CreatePaginationData(page, limit, |listed|);
  }
}
