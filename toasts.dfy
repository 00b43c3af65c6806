/** The notification sink. Each call to `showToast(type, title, detail)` is
    recorded as its type and title; the screens append to a log of these. */
module Toasts {

  datatype Kind = Success | Error | Info

  datatype Toast = Toast(kind: Kind, title: string)
}
