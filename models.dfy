/**
  The stored documents the core reads and writes, reduced to the fields the
  core touches, and the HTTP exceptions it raises.
 */
module Models {

  /** A user document. `isBanned` is `false` on creation. */
  datatype User = User(phone: string, fullname: string, username: string, password: string, isBanned: bool)

  /** A ban record: the banned phone and the id of the user it was issued for. */
  datatype Ban = Ban(phone: string, user: string)

  /** A user document together with its `_id`, as Mongoose hands it out. */
  datatype UserDocument = UserDocument(id: string, user: User)

  /** The JSON values a user document serialises to. */
  datatype Json = JString(s: string) | JBool(b: bool)

  /** The framework's HTTP exceptions, each with its message. */
  datatype HttpException =
    | Forbidden(message: string)
    | NotFound(message: string)

  /** `userDoc.toObject()`: every field of the document, `_id` and the
      password hash included. */
  function ToObject(doc: UserDocument): (o: map<string, Json>)
    ensures o.Keys == {"_id", "phone", "fullname", "username", "password", "isBanned"}
    ensures o["_id"] == JString(doc.id) && o["password"] == JString(doc.user.password)
  {
    map[
      "_id" := JString(doc.id),
      "phone" := JString(doc.user.phone),
      "fullname" := JString(doc.user.fullname),
      "username" := JString(doc.user.username),
      "password" := JString(doc.user.password),
      "isBanned" := JBool(doc.user.isBanned)
    ]
  }
}
