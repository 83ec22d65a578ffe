/** The configuration entries and the row tuples the poller produces. */
module Subscribers {

  /** One entry of the configuration's `type` table: a realm and the vlan code it stands for. */
  datatype TypeEntry = TypeEntry(name: string, realm: string, vlan: int)

  /**
   * The value put in the `subtype` column: the line text a Redback router reports,
   * an integer code (a Cisco port number or a configured vlan), or Python's `None`
   * when the realm classifier finds no entry.
   */
  datatype Subtype = Line(text: string) | Code(n: int) | NoType

  /**
   * A row tuple `(username, last_down, last_up, status, subtype, login_status)`,
   * timestamps in whole seconds.
   */
  datatype Login = Login(user: string, lastDown: int, lastUp: int, status: bool, subtype: Subtype, loginStatus: bool)

  /** The tuple both collectors append for a subscriber seen at time `now`. */
  function Seen(user: string, subtype: Subtype, now: int): Login {
    Login(user, now, now, true, subtype, true)
  }

  /** Is `l` a tuple appended in the round stamped `now`? */
  predicate SeenAt(l: Login, now: int) {
    l.lastDown == now && l.lastUp == now && l.status && l.loginStatus
  }
}
