/** The entities of the application, one datatype per persisted class.
    Money (a C# `decimal`) is held in cents and a `DateTime` as a tick count. */
module Models {
  import opened Wrappers

  /** An amount of money in cents. */
  type Money = int

  /** A point in time, as ticks. */
  type Instant = int

  /** A towable trailer unit. `disponible` is the availability flag that
      sale composition and deletion toggle. */
  datatype Caravana = Caravana(
    id: int,
    serie: string,
    marca: string,
    modelo: string,
    anio: int,
    matricula: string,
    numeroSenasa: string,
    tipo: string,
    precio: Money,
    disponible: bool,
    caracteristicas: string,
    descripcion: string)

  /** A buyer. `codigoQR` is the public lookup code and `rutaImagenQR` the
      path of the generated QR image; both may be null. */
  datatype Cliente = Cliente(
    id: int,
    nombre: string,
    apellido: string,
    dni: string,
    telefono: string,
    email: string,
    fechaRegistro: Instant,
    codigoQR: Option<string>,
    rutaImagenQR: Option<string>)

  /** A sale header; `importe` is its total. */
  datatype Venta = Venta(id: int, fecha: Instant, importe: Money, clienteId: int)

  /** A line item linking one sale to one caravana, with the price the
      caravana had when it was added. */
  datatype VentaCaravana = VentaCaravana(id: int, ventaId: int, caravanaId: int, importe: Money)

  /** A regulatory authorisation of a caravana. */
  datatype AutorizacionSenasa = AutorizacionSenasa(
    id: int,
    numero: string,
    fechaEmision: Instant,
    estado: string,
    caravanaId: int)
}
