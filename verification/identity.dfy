/** The signed-in identity both write actions read. */
module Identity {

  /**
    The identity record returned at sign-in (`{user_id, username, email}`);
    only its id reaches a request. No user is modelled as `None`.
   */
  datatype User = User(userId: string, username: string, email: string)
}
