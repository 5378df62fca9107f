/**
 * The shapes of mission records: the request body of POST /missions/ and a
 * stored row of the `missions` table.
 *
 * The request schema carries name, status, an optional description and an
 * optional launch date; the ORM table has columns id, name, status and a
 * column spelled `descritption`, and no launch date. Building the ORM object
 * from the request's fields therefore cannot succeed as written. This model
 * uses the evidently intended row shape (id, name, status, description) and
 * does not model the launch date.
 */
module Schemas {
  import opened Wrappers

  /** A validated request body (schemas.MissionCreate without launch_date). */
  datatype MissionCreate = MissionCreate(name: string, status: string, description: Option<string>)

  /** A stored row of the `missions` table; `id` is assigned by the store. */
  datatype Mission = Mission(id: int, name: string, status: string, description: Option<string>)
}
