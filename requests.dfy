/**
 * The request bodies the availability service receives. They carry data
 * only; field validation is done by the web framework before the service
 * is called.
 */
module Requests {

  /** A doctor publishes one availability slot. */
  datatype AvailabilityRequest = AvailabilityRequest(
    doctorId: int,
    dayOfWeek: string,
    locationId: int,
    startTime: string,
    endTime: string)

  /** A client books an appointment; `time` is `"start-end"`. */
  datatype AppointmentRequest = AppointmentRequest(
    locationId: int,
    doctorId: int,
    dayOfWeek: string,
    time: string)
}
